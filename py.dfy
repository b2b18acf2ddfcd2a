/** Python values that every pipeline shares: an optional value (a key that may be absent or
    `None`) and the exceptions the modelled code can raise, as data. */
module Py {

  datatype Option<T> = None | Some(value: T) {
    /** `d.get(key, default)` / `x or default` for a value that is either present or absent. */
    function GetOr(default: T): T {
      match this
      case Some(v) => v
      case None => default
    }
  }

  /** The exceptions the modelled code can raise. */
  datatype Error =
    | ValueError        // `int(...)` / `float(...)` given text that is not a number
    | KeyError(key: string)
    | AttributeError    // an attribute read on `None`, such as `.text` of a missing element
    | OverflowError     // date arithmetic that leaves the range of `datetime.date`

  datatype Result<T> = Ok(value: T) | Err(error: Error)
}
