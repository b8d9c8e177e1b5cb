/** Failure-compatible carriers used throughout the model: an optional value
    (standing for nullable references and `decimal?`) and a success/failure
    result (standing for a thrown error). */
module Wrappers {

  datatype Option<+T> = None | Some(value: T) {
    /** The value, or `default` when absent (C#'s `??`). */
    function GetOr(default: T): T {
      match this
      case Some(v) => v
      case None => default
    }
  }

  datatype Result<+R, +E> = Success(value: R) | Failure(error: E)

  datatype Outcome<+E> = Pass | Fail(error: E)
}

/** Instants and durations, measured in .NET ticks (100 ns). */
module Clock {
  type Ticks = int

  /** `DateTime.MinValue` and `DateTime.MaxValue` in ticks. */
  const MinValue: Ticks := 0
  const MaxValue: Ticks := 3155378975999999999

  const TicksPerHour: Ticks := 36000000000
  const TicksPerDay: Ticks := 24 * TicksPerHour
}
