// Optional values and results with an error, used where the source returns
// early on a failure or raises.

module Results {

  datatype Option<+T> = None | Some(value: T)

  datatype Result<+T, +E> = Success(value: T) | Failure(error: E)

  /** The two errors caught when a JSON file is read: the file is missing, or
      its text is not valid JSON. Any other read error is not caught. */
  datatype LoadError = FileNotFound | JsonDecodeError
}
