/** Types shared by every layer. */
module Common {
  datatype Option<+T> = None | Some(value: T)

  datatype Result<+T, +E> = Ok(value: T) | Err(error: E)

  /** A memory id: an unsigned 64-bit integer in the source. */
  type Key = nat

  type byte = n: int | 0 <= n < 256

  type Bytes = seq<byte>

  lemma ConcatAssociates<T>(a: seq<T>, b: seq<T>, c: seq<T>)
    ensures a + b + c == a + (b + c)
  {
  }
}
