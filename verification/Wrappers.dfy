/** A value that may be missing, and a law of sequences. */
module Wrappers {
  datatype Option<T> = None | Some(value: T)

  lemma Associative<T>(a: seq<T>, b: seq<T>, c: seq<T>)
    ensures (a + b) + c == a + (b + c)
  {
  }
}
