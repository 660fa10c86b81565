/** Facts about sequences that several modules lean on. */
module Seqs {

  /** Concatenation is associative; appending to a log that extends another extends it by the same entries. */
  lemma AppendAssoc<T>(a: seq<T>, b: seq<T>, c: seq<T>)
    ensures a + b + c == a + (b + c)
  {
  }
}
