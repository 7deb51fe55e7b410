/** Linear searches for the first and last index in a range that satisfies a
    predicate. */
module Search {

  /** The least index in [lo, hi) satisfying `p`. */
  function FirstWhere(p: int -> bool, lo: int, hi: int): (k: int)
    requires exists i :: lo <= i < hi && p(i)
    ensures lo <= k < hi && p(k)
    ensures forall i :: lo <= i < k ==> !p(i)
    decreases hi - lo
  {
    if p(lo) then lo else FirstWhere(p, lo + 1, hi)
  }

  /** The greatest index in [lo, hi) satisfying `p`. */
  function LastWhere(p: int -> bool, lo: int, hi: int): (k: int)
    requires exists i :: lo <= i < hi && p(i)
    ensures lo <= k < hi && p(k)
    ensures forall i :: k < i < hi ==> !p(i)
    decreases hi - lo
  {
    if p(hi - 1) then hi - 1 else LastWhere(p, lo, hi - 1)
  }
}
