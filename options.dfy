/** A value that may be absent: PHP's nullable types (`?bool`, `?string`, `?DailyEntry`). */
module Options {

  datatype Option<+T> = None | Some(value: T)
}
