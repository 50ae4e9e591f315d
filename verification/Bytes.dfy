/** Bytes, byte strings and the two wrapper types every other module uses. */
module Bytes {

  type Byte = b: int | 0 <= b < 256

  /** A Rust `String` or `&[u8]`, as the bytes it holds. */
  type Text = seq<Byte>

  type U32 = n: int | 0 <= n < 0x1_0000_0000

  type U64 = n: int | 0 <= n < 0x1_0000_0000_0000_0000

  datatype Option<+T> = None | Some(value: T) {
    predicate IsFailure() {
      None?
    }

    function PropagateFailure<U>(): Option<U>
      requires None?
    {
      None
    }

    function Extract(): T
      requires Some?
    {
      value
    }
  }

  datatype Result<+T, +E> = Ok(value: T) | Err(error: E) {
    predicate IsFailure() {
      Err?
    }

    function PropagateFailure<U>(): Result<U, E>
      requires Err?
    {
      Err(error)
    }

    function Extract(): T
      requires Ok?
    {
      value
    }
  }
}
