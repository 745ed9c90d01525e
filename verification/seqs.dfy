/** Sequence helpers shared by the catalog, the user store and the peer selection. */
module Seqs {
  import opened Wrappers

  /** Position of the first occurrence of `x` in `s`: both the catalog lookup
      (first row whose name matches) and the user lookup (first record whose
      username matches) resolve duplicates this way. */
  function FirstIndex<T(==)>(s: seq<T>, x: T): (r: Option<nat>)
    ensures r.Some? <==> x in s
    ensures r.Some? ==> r.value < |s| && s[r.value] == x
    ensures r.Some? ==> forall j :: 0 <= j < r.value ==> s[j] != x
  {
    if |s| == 0 then None
    else if s[0] == x then Some(0)
    else match FirstIndex(s[1..], x)
      case None => None
      case Some(i) => Some(i + 1)
  }

  /** The smaller of two bounds; a Python slice end past the length is clipped to it. */
  function Min(a: int, b: int): int
  {
    if a <= b then a else b
  }

  /** `s` holds no element twice. */
  predicate NoDuplicates<T(==)>(s: seq<T>)
  {
    forall i, j :: 0 <= i < j < |s| ==> s[i] != s[j]
  }
}
