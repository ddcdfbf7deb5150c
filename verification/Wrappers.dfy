/** A value that may be missing, bytes, and how sequences are joined. */
module Wrappers {

  datatype Option<T> = None | Some(value: T)

  type Byte = b: int | 0 <= b < 256

  lemma Associate<T>(a: seq<T>, b: seq<T>, c: seq<T>)
    ensures a + b + c == a + (b + c)
  {
  }
}
