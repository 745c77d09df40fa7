/**
 * The one pandas reduction the core relies on: `Series.idxmin` over a column
 * that may first have been narrowed by a boolean mask. A column is a sequence
 * of keys indexed by row position; the mask says which rows survived the
 * filter. idxmin returns the row of the least key, the first such row on a
 * tie, and raises on an empty column (None here).
 */
module Series {
  import opened Wrappers

  /** Row k is the first row among the kept ones whose key is least. */
  ghost predicate IsFirstMin(keys: seq<real>, keep: seq<bool>, k: int)
    requires |keep| == |keys|
  {
    && 0 <= k < |keys|
    && keep[k]
    && (forall j :: 0 <= j < |keys| && keep[j] ==> keys[k] <= keys[j])
    && (forall j :: 0 <= j < k && keep[j] ==> keys[k] < keys[j])
  }

  /** idxmin of `keys[keep]`: a running minimum that only moves on a strictly smaller key. */
  function IdxMin(keys: seq<real>, keep: seq<bool>): (r: Option<nat>)
    requires |keep| == |keys|
    ensures r.None? <==> forall j :: 0 <= j < |keys| ==> !keep[j]
    ensures r.Some? ==> IsFirstMin(keys, keep, r.value)
    decreases |keys|
  {
    if |keys| == 0 then None
    else
      var n := |keys| - 1;
      var best := IdxMin(keys[..n], keep[..n]);
      if !keep[n] then best
      else if best.None? || keys[n] < keys[best.value] then Some(n)
      else best
  }
}
