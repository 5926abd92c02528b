/** Small value types shared by every module of the model: nullable values,
    outcomes that may fail, and the clock. */
module Common {

  /** A Java reference that may be null. */
  datatype Option<+T> = None | Some(value: T) {
    /** `COALESCE(this, default)`. */
    function GetOr(default: T): T {
      match this
      case Some(v) => v
      case None => default
    }
  }

  /** A call that either yields a value or fails with an error (a Reactor
      `Mono.error`, a thrown exception, a constraint violation). */
  datatype Result<+T, +E> = Success(value: T) | Failure(error: E)

  /** A point in time, in microseconds since the epoch (the precision of a
      PostgreSQL `timestamptz`). */
  type Instant = int

  const MicrosPerHour: int := 3600 * 1000000

  /** `INTERVAL '24 hours'`. */
  const Day: int := 24 * MicrosPerHour
}
