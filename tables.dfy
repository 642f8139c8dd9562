/**
 * Queries over a table stored as a map from autoincrement ids to rows.
 * Rows are visited in id order, the order in which the store hands back
 * the results of findFirst and findMany.
 */
module Tables {
  import opened Records

  /** The least id in [lo, hi) whose row satisfies `p` (findFirst). */
  function FirstKey<T>(m: map<nat, T>, p: T -> bool, lo: nat, hi: nat): (r: Option<nat>)
    ensures r.Some? ==> lo <= r.value < hi && r.value in m && p(m[r.value])
    ensures r.Some? ==> forall k :: lo <= k < r.value && k in m ==> !p(m[k])
    ensures r.None? ==> forall k :: lo <= k < hi && k in m ==> !p(m[k])
    decreases hi - lo
  {
    if lo >= hi then None
    else if lo in m && p(m[lo]) then Some(lo)
    else FirstKey(m, p, lo + 1, hi)
  }

  /** The ids in [lo, hi) whose rows satisfy `p`, in increasing order (findMany). */
  function SelectKeys<T>(m: map<nat, T>, p: T -> bool, lo: nat, hi: nat): (r: seq<nat>)
    ensures forall i :: 0 <= i < |r| ==> lo <= r[i] < hi && r[i] in m && p(m[r[i]])
    ensures forall i, j :: 0 <= i < j < |r| ==> r[i] < r[j]
    ensures forall k :: lo <= k < hi && k in m && p(m[k]) ==> k in r
    decreases hi - lo
  {
    if lo >= hi then []
    else
      var rest := SelectKeys(m, p, lo + 1, hi);
      if lo in m && p(m[lo]) then [lo] + rest else rest
  }

  /** The rows stored under the ids `ks`, in the order of `ks`. */
  function Project<T>(m: map<nat, T>, ks: seq<nat>): (r: seq<T>)
    requires forall i :: 0 <= i < |ks| ==> ks[i] in m
    ensures |r| == |ks|
    ensures forall i :: 0 <= i < |r| ==> r[i] == m[ks[i]]
  {
    if ks == [] then [] else [m[ks[0]]] + Project(m, ks[1..])
  }

  /** Every row of [lo, hi) that satisfies `p` is among the rows findMany hands back. */
  lemma SelectedRowsComplete<T>(m: map<nat, T>, p: T -> bool, lo: nat, hi: nat, k: nat)
    requires lo <= k < hi && k in m && p(m[k])
    ensures m[k] in Project(m, SelectKeys(m, p, lo, hi))
  {
    var ks := SelectKeys(m, p, lo, hi);
    var i :| 0 <= i < |ks| && ks[i] == k;
    assert Project(m, ks)[i] == m[k];
  }
}
