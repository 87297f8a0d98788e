/** bsearch, as far as its callers may rely on it: some entry that compares equal, or none when none
    does.  Which one is not determined. */
module Search {
  import opened Options

  /** The C library asks that the entries are ordered as the comparator sees them: `cmp(i)` compares
      the key with entry i. */
  ghost predicate Partitioned(n: nat, cmp: nat -> int) {
    forall i: nat, j: nat :: i <= j < n ==> (cmp(i) < 0 ==> cmp(j) < 0) && (cmp(j) > 0 ==> cmp(i) > 0)
  }

  method BSearch(n: nat, cmp: nat -> int) returns (r: Option<nat>)
    requires Partitioned(n, cmp)
    ensures r.Some? ==> r.value < n && cmp(r.value) == 0
    ensures r.None? ==> forall i: nat :: i < n ==> cmp(i) != 0
  {
    var lo: nat, hi: nat := 0, n;
    while lo < hi
      invariant lo <= hi <= n
      invariant forall i: nat :: i < lo ==> cmp(i) > 0
      invariant forall i: nat :: hi <= i < n ==> cmp(i) < 0
    {
      var mid: nat := (lo + hi) / 2;
      var c := cmp(mid);
      if c == 0 {
        return Some(mid);
      } else if c < 0 {
        hi := mid;
      } else {
        lo := mid + 1;
      }
    }
    return None;
  }
}
