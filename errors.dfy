/** The error enum of the program (`RpmError`) and its `RpmResult<T>` alias. */
module Errors {

  /** The kind carried by an `Io` error; only the kinds the model can produce are listed. */
  datatype IoKind = NotFound | InvalidData

  /**
   * `RpmError`. Variants carrying a `String` keep it; the two variants that wrap a
   * foreign error value (`std::io::Error`, `serde_json::Error`) keep only what the model
   * can observe of it.
   */
  datatype RpmError =
    | Crypto(message: string)
    | Config(message: string)
    | Tui(message: string)
    | Server(message: string)
    | Tray(message: string)
    | Io(kind: IoKind)
    | Serialization
    | AuthenticationFailed
    | InvalidInput(message: string)

  /** `RpmResult<T>`, usable with Dafny's `:-` the way Rust uses `?`. */
  datatype Result<+T> = Ok(value: T) | Err(error: RpmError) {

    predicate IsFailure()
    {
      Err?
    }

    function PropagateFailure<U>(): Result<U>
      requires Err?
    {
      Err(error)
    }

    function Extract(): T
      requires Ok?
    {
      value
    }
  }
}
