/** A table keyed by generated ids, read back in id order (the order `findAll` yields here). */
module Tables {

  /** The rows with ids `lo` .. `hi - 1`, in id order. */
  function Rows<T>(m: map<int, T>, lo: int, hi: int): (r: seq<T>)
    ensures |r| <= if lo <= hi then hi - lo else 0
    decreases hi - lo
  {
    if lo >= hi then [] else (if lo in m then [m[lo]] else []) + Rows(m, lo + 1, hi)
  }

  /** A value is listed exactly when some id in range maps to it. */
  lemma {:induction false} RowsMembership<T>(m: map<int, T>, lo: int, hi: int, x: T)
    ensures x in Rows(m, lo, hi) <==> exists id :: lo <= id < hi && id in m && m[id] == x
    decreases hi - lo
  {
    if lo < hi {
      RowsMembership(m, lo + 1, hi, x);
    }
  }
}
