/** Failure-carrying wrappers used across the model. */
module Wrappers {

  /** A value that may be absent (Python's `None` or a missed lookup). */
  datatype Option<+T> = None | Some(value: T)

  /** The outcome of a computation that the program lets raise an exception. */
  datatype Result<+T, +E> = Success(value: T) | Failure(error: E)
}

/** The exceptions that abort one reconciliation run. */
module Errors {

  datatype Error =
    | UnknownLessonSlot(time: string)   // `list.index` misses the start-time table
    | InvalidWeek(week: string)         // `int(week)` raises
    | InvalidWeekday(name: string)      // `list.index` misses the weekday names
    | InvalidTime(time: string)         // "HH:MM" does not split into two integers
    | YearOutOfRange(year: int)         // `datetime(year, 9, 1)` raises
    | InvalidYear(text: string)         // `int("20" + schedule_year)` raises
}
