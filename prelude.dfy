/** Basic vocabulary shared by every module: bytes and an optional value. */
module Prelude {

  /** An unsigned 8-bit value, as Rust's `u8`. */
  newtype byte = x: int | 0 <= x < 256

  /** A byte string, as Rust's `Vec<u8>` / `&[u8]`. */
  type Bytes = seq<byte>

  /** Rust's `Option<T>`, usable with Dafny's `:-` the way Rust uses `?` on an option. */
  datatype Option<+T> = None | Some(value: T) {

    predicate IsFailure()
    {
      None?
    }

    function PropagateFailure<U>(): Option<U>
      requires None?
    {
      None
    }

    function Extract(): T
      requires Some?
    {
      value
    }
  }

  /** All bytes of `b` are zero. */
  predicate AllZero(b: Bytes)
  {
    forall i :: 0 <= i < |b| ==> b[i] == 0
  }
}
