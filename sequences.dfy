/** Order-preserving selection from a sequence, shared by the filtering operations. */
module Sequences {

  /** The elements of a occur in b in the same order (not necessarily next to each other). */
  predicate IsSubsequence<T(==)>(a: seq<T>, b: seq<T>)
    decreases |a| + |b|
  {
    if |a| == 0 then true
    else if |b| == 0 then false
    else if a[0] == b[0] then IsSubsequence(a[1..], b[1..])
    else IsSubsequence(a, b[1..])
  }
}
