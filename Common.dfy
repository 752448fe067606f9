/** Value types shared by every module: the optional value Python writes as
    `X | None`, and the outcome of an operation that may raise one of the
    exceptions the modelled code raises. */
module Common {

  /** `None` or a value. */
  datatype Option<+T> = None | Some(value: T)

  /** The Python exceptions the modelled operations can raise. */
  datatype Exception = ValueError | IndexError | AttributeError

  /** A normal return with a value, or a raised exception. */
  datatype Result<+T> = Ok(value: T) | Raise(error: Exception)

  function Max(a: int, b: int): int
  {
    if a < b then b else a
  }
}
