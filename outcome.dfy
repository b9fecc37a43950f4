/** Failure values of the planner. */
module Outcome {

  /** Why no flight path was produced. */
  datatype PlanError =
    | TooFewWaypoints        // fewer than two waypoints: the planner returns None
    | ZeroStepDistance       // the target count divides a pair's distance by a zero step
    | ZeroDistanceToCentre   // extendVecByDist divides by a zero distance

  datatype Result<+T> = Success(value: T) | Failure(error: PlanError)
}
