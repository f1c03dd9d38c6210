/** Positions in sequences, shared by the translation and image phases. */
module Seqs {

  /** The position of the last occurrence of `e` in `s`. */
  function LastIndex<T(==)>(s: seq<T>, e: T): (k: nat)
    requires e in s
    ensures k < |s| && s[k] == e
    ensures forall j :: k < j < |s| ==> s[j] != e
  {
    if s[|s| - 1] == e then |s| - 1 else LastIndex(s[..|s| - 1], e)
  }
}
