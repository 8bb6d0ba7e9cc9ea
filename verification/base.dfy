/** Shared value types of the circulation model. */
module Base {

  /** A calendar day, as a whole number of days from a fixed epoch.
      `LocalDate` values are days; `LocalDateTime` timestamps are kept at day precision. */
  type Day = int

  /** A nullable Java reference or boxed value: `None` stands for `null`. */
  datatype Option<+T> = None | Some(value: T)

  /** A value, or the error condition that made the operation give up. */
  datatype Result<+T, +E> = Success(value: T) | Failure(error: E)
}
