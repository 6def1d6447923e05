/** `ConsoleReader.ReadValue<T>`: reads a line and converts it to the
    element type. The console itself is not modelled; what the conversion
    of the typed line came to is given as an `Option`. */
module ConsoleReader {

  datatype Option<T> = None | Some(value: T)

  /** The value the reader hands back. A conversion that fails is never
      reported to the caller: it silently becomes `defaultValue`, the
      element type's `default` (0 for `int`). */
  function ReadValue<T>(converted: Option<T>, defaultValue: T): (r: T)
    ensures converted.Some? ==> r == converted.value
    ensures converted.None? ==> r == defaultValue
  {
    match converted
    case Some(v) => v
    case None => defaultValue
  }
}
