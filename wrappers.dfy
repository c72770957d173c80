/** The optional result that stands for `std::optional` and for the C++ readers' success flag,
    and the regrouping of concatenations that the byte-level proofs lean on. */
module Wrappers {

  datatype Option<T> = None | Some(value: T)

  lemma Assoc<T>(a: seq<T>, b: seq<T>, c: seq<T>)
    ensures a + (b + c) == (a + b) + c
  {
  }
}
