/** The sorted address tables of dwarf.c, for units and for functions: how they are ordered, and the
    search by a loose comparator followed by a walk. */
module IntervalIndex {
  import opened QSort
  import opened Options
  import opened Search

  /** uintptr_t -1, the sentinel value. */
  const MAX_PC: nat := 0xFFFF_FFFF_FFFF_FFFF

  /** The addresses low .. high - 1 belong to `value`. */
  datatype Entry<+V> = Entry(low: nat, high: nat, value: V)

  predicate Contains<V>(e: Entry<V>, pc: nat) {
    e.low <= pc < e.high
  }

  // ----- order -----

  /** function_addrs_compare and unit_addrs_compare: by start, larger ranges first, then by what
      distinguishes the values. */
  function EntryCompare<V>(a1: Entry<V>, a2: Entry<V>, tie: Compare<V>): int {
    if a1.low < a2.low then -1
    else if a1.low > a2.low then 1
    else if a1.high < a2.high then 1
    else if a1.high > a2.high then -1
    else tie(a1.value, a2.value)
  }

  function ByRange<V>(tie: Compare<V>): Compare<Entry<V>> {
    (a1, a2) => EntryCompare(a1, a2, tie)
  }

  lemma ByRangeIsPreorder<V(!new)>(tie: Compare<V>)
    requires TotalPreorder(tie)
    ensures TotalPreorder(ByRange(tie))
  {
  }

  /** strcmp, the tie of function_addrs_compare. */
  function StrCmp(s: string, t: string): int {
    if s == [] then (if t == [] then 0 else -1)
    else if t == [] then 1
    else if s[0] < t[0] then -1
    else if s[0] > t[0] then 1
    else StrCmp(s[1..], t[1..])
  }

  lemma {:induction false} StrCmpAntisymmetric(s: string, t: string)
    ensures StrCmp(s, t) > 0 <==> StrCmp(t, s) < 0
    decreases |s|
  {
    if s != [] && t != [] {
      StrCmpAntisymmetric(s[1..], t[1..]);
    }
  }

  lemma {:induction false} StrCmpTransitive(s: string, t: string, u: string)
    requires StrCmp(s, t) <= 0 && StrCmp(t, u) <= 0
    ensures StrCmp(s, u) <= 0
    decreases |s|
  {
    if s != [] && t != [] && u != [] && s[0] == t[0] == u[0] {
      StrCmpTransitive(s[1..], t[1..], u[1..]);
    }
  }

  lemma NamesArePreorder()
    ensures TotalPreorder(StrCmp)
  {
    forall s, t ensures StrCmp(s, t) > 0 <==> StrCmp(t, s) < 0 {
      StrCmpAntisymmetric(s, t);
    }
    forall s, t, u | StrCmp(s, t) <= 0 && StrCmp(t, u) <= 0 ensures StrCmp(s, u) <= 0 {
      StrCmpTransitive(s, t, u);
    }
  }

  /** A table: entries in order, then the sentinel. */
  ghost predicate Table<V>(t: seq<Entry<V>>) {
    && |t| > 0 && t[|t| - 1].low == MAX_PC
    && (forall i: nat :: i < |t| ==> t[i].low <= MAX_PC && t[i].high <= MAX_PC)
    && (forall i: nat, j: nat :: i < j < |t| - 1 ==> t[i].low < t[j].low || (t[i].low == t[j].low && t[i].high >= t[j].high))
  }

  /** What a table of count entries and a sentinel becomes: in order, with the same entries. */
  method SortTable<V(!new)>(a: array<Entry<V>>, tie: Compare<V>)
    requires TotalPreorder(tie)
    requires a.Length > 0 && a[a.Length - 1].low == MAX_PC && (forall i: nat :: i < a.Length ==> a[i].low <= MAX_PC && a[i].high <= MAX_PC)
    modifies a
    ensures Table(a[..]) && Sorted(ByRange(tie), a[..a.Length - 1])
    ensures multiset(a[..]) == old(multiset(a[..]))
  {
    ghost var s := a[..];
    ByRangeIsPreorder(tie);
    var count := a.Length - 1;
    var _ := QSort.QSort(a, 0, count, ByRange(tie));
    SortedIsTable(s, a[..], tie);
    assert a[..a.Length - 1] == a[..][0..count];
  }

  lemma SortedIsTable<V(!new)>(s: seq<Entry<V>>, t: seq<Entry<V>>, tie: Compare<V>)
    requires |s| > 0 && s[|s| - 1].low == MAX_PC && (forall i: nat :: i < |s| ==> s[i].low <= MAX_PC && s[i].high <= MAX_PC)
    requires Rearranged(s, t, 0, |s| - 1) && Sorted(ByRange(tie), t[0..|s| - 1])
    ensures Table(t) && multiset(t) == multiset(s)
  {
    RearrangedWithin(s, t, 0, |s|, 0, |s| - 1);
    assert s[0..|s|] == s && t[0..|s|] == t;
    var n := |s| - 1;
    assert s[n..][0] == s[n] && t[n..][0] == t[n];
    forall i: nat | i < |t| ensures t[i].low <= MAX_PC && t[i].high <= MAX_PC {
      InPermutation(t, s, i);
    }
    forall i: nat, j: nat | i < j < n ensures t[i].low < t[j].low || (t[i].low == t[j].low && t[i].high >= t[j].high) {
      assert ByRange(tie)(t[0..n][i], t[0..n][j]) <= 0;
    }
  }

  // ----- the order of names, stated apart from strcmp -----

  /** s and t agree in k characters; then s ends, or has the smaller character. */
  predicate DiffersAt(s: string, t: string, k: nat) {
    k <= |s| && k < |t| && s[..k] == t[..k] && (k == |s| || s[k] < t[k])
  }

  ghost predicate NameBefore(s: string, t: string) {
    exists k: nat :: DiffersAt(s, t, k)
  }

  lemma {:induction false} StrCmpMeans(s: string, t: string)
    ensures StrCmp(s, t) < 0 <==> NameBefore(s, t)
    ensures StrCmp(s, t) == 0 <==> s == t
    decreases |s|
  {
    if s == [] || t == [] || s[0] != t[0] {
      assert DiffersAt(s, t, 0) <==> StrCmp(s, t) < 0;
      assert forall k: nat :: DiffersAt(s, t, k) && k > 0 ==> s[..k][0] == t[..k][0];
    } else {
      StrCmpMeans(s[1..], t[1..]);
      assert s == [s[0]] + s[1..] && t == [t[0]] + t[1..];
      if k: nat :| DiffersAt(s[1..], t[1..], k) {
        assert s[..k + 1] == [s[0]] + s[1..][..k] && t[..k + 1] == [t[0]] + t[1..][..k];
        assert DiffersAt(s, t, k + 1);
      }
      if k: nat :| DiffersAt(s, t, k) {
        assert s[1..][..k - 1] == s[..k][1..] && t[1..][..k - 1] == t[..k][1..];
        assert DiffersAt(s[1..], t[1..], k - 1);
      }
    }
  }

  // ----- lookup -----

  /** Of the entries with the greatest start that is not above pc, the last that contains pc. */
  ghost predicate Matches<V>(t: seq<Entry<V>>, pc: nat, i: nat) {
    && i + 1 < |t| && Contains(t[i], pc)
    && (forall j: nat :: j < |t| - 1 && t[j].low <= pc ==> t[j].low <= t[i].low)
    && (forall j: nat :: i < j < |t| - 1 && t[j].low == t[i].low ==> !Contains(t[j], pc))
  }

  /** function_addrs_search and unit_addrs_search: looks at the next entry too. */
  function SearchCompare<V>(t: seq<Entry<V>>, pc: nat, i: nat): int {
    if i + 1 >= |t| then -1
    else if pc < t[i].low then -1
    else if pc > t[i + 1].low then 1
    else 0
  }

  function SearchKey<V>(t: seq<Entry<V>>, pc: nat): nat -> int {
    (i: nat) => SearchCompare(t, pc, i)
  }

  lemma SearchIsPartitioned<V>(t: seq<Entry<V>>, pc: nat)
    requires Table(t)
    ensures Partitioned(|t| - 1, SearchKey(t, pc))
  {
  }

  /** Entries after p start above pc, entry p does not. */
  ghost predicate LastStart<V>(t: seq<Entry<V>>, pc: nat, p: nat) {
    p + 1 < |t| && t[p].low <= pc && forall j: nat :: p < j < |t| - 1 ==> t[j].low > pc
  }

  /** The lookups of dwarf_lookup_pc and report_inlined_functions. */
  method Lookup<V>(t: seq<Entry<V>>, pc: nat) returns (r: Option<nat>)
    requires Table(t) && pc <= MAX_PC
    ensures r.Some? ==> Matches(t, pc, r.value)
    ensures r.None? ==> forall i: nat :: !Matches(t, pc, i)
  {
    if |t| == 1 || pc == MAX_PC {
      return None;
    }
    SearchIsPartitioned(t, pc);
    var found := BSearch(|t| - 1, SearchKey(t, pc));
    if found.None? {
      AllStartAbove(t, pc);
      return None;
    }
    var p: nat := found.value;
    assert SearchKey(t, pc)(p) == 0;
    while pc == t[p + 1].low
      invariant p + 1 < |t| && t[p].low <= pc <= t[p + 1].low
      decreases |t| - p
    {
      p := p + 1;
    }
    r := WalkBack(t, pc, p);
  }

  /** Backward from the last entry that starts at or below pc. */
  method WalkBack<V>(t: seq<Entry<V>>, pc: nat, last: nat) returns (r: Option<nat>)
    requires Table(t) && LastStart(t, pc, last)
    ensures r.Some? ==> Matches(t, pc, r.value)
    ensures r.None? ==> forall i: nat :: !Matches(t, pc, i)
  {
    var p: nat := last;
    while true
      invariant p <= last && t[p].low == t[last].low
      invariant forall j: nat :: p < j <= last ==> !Contains(t[j], pc)
      decreases p
    {
      if pc < t[p].high {
        return Some(p);
      }
      if p == 0 || t[p - 1].low < t[p].low {
        NoMatch(t, pc, p, last);
        return None;
      }
      p := p - 1;
    }
  }

  /** The search finds nothing only when no entry starts at or below pc. */
  lemma {:induction false} StartsFrom<V>(t: seq<Entry<V>>, pc: nat, i: nat)
    requires Table(t) && pc < MAX_PC && i + 1 < |t| && t[i].low <= pc
    requires forall k: nat :: k < |t| - 1 ==> SearchKey(t, pc)(k) != 0
    ensures false
    decreases |t| - i
  {
    assert SearchKey(t, pc)(i) != 0;
    if i + 2 < |t| {
      StartsFrom(t, pc, i + 1);
    }
  }

  lemma AllStartAbove<V>(t: seq<Entry<V>>, pc: nat)
    requires Table(t) && pc < MAX_PC
    requires forall k: nat :: k < |t| - 1 ==> SearchKey(t, pc)(k) != 0
    ensures forall i: nat :: !Matches(t, pc, i)
  {
    forall i: nat ensures !Matches(t, pc, i) {
      if i + 1 < |t| && t[i].low <= pc {
        StartsFrom(t, pc, i);
      }
    }
  }

  lemma NoMatch<V>(t: seq<Entry<V>>, pc: nat, p: nat, last: nat)
    requires Table(t) && p <= last && LastStart(t, pc, last) && t[p].low == t[last].low
    requires p == 0 || t[p - 1].low < t[p].low
    requires forall j: nat :: p <= j <= last ==> !Contains(t[j], pc)
    ensures forall i: nat :: !Matches(t, pc, i)
  {
  }

  /** At most one entry is the one looked for, and it is the smallest of those that start there. */
  lemma MatchIsSmallest<V>(t: seq<Entry<V>>, pc: nat, i: nat, j: nat)
    requires Table(t) && Matches(t, pc, i)
    ensures Matches(t, pc, j) ==> j == i
    ensures j < |t| - 1 && t[j].low == t[i].low && Contains(t[j], pc) ==> j <= i && t[i].high <= t[j].high
  {
  }

  /** A single range is found at its first address and at its last, which is the one before its end. */
  lemma OneEntry<V(!new)>(value: V, none: V, pc: nat)
    ensures var t := [Entry(100, 200, value), Entry(MAX_PC, MAX_PC, none)];
      Table(t) && (Matches(t, pc, 0) <==> 100 <= pc <= 199) && !Matches(t, pc, 1)
  {
  }

  /** Of the entries with the same range the one found is the last by the tie. */
  lemma FoundIsLast<V(!new)>(t: seq<Entry<V>>, tie: Compare<V>, pc: nat, i: nat, j: nat)
    requires Table(t) && Sorted(ByRange(tie), t[..|t| - 1]) && Matches(t, pc, i)
    requires j < |t| - 1 && t[j].low == t[i].low && t[j].high == t[i].high && j != i
    ensures tie(t[j].value, t[i].value) <= 0
  {
    MatchIsSmallest(t, pc, i, j);
    var s := t[..|t| - 1];
    assert ByRange(tie)(s[j], s[i]) <= 0;
  }

  /** A lookup succeeds exactly when one of the entries with the greatest start that is not above pc
      contains it. */
  lemma FoundExactly<V>(t: seq<Entry<V>>, pc: nat, p: nat)
    requires Table(t) && LastStart(t, pc, p)
    ensures (exists i: nat :: Matches(t, pc, i))
       <==> (exists i: nat :: i < |t| - 1 && t[i].low == t[p].low && Contains(t[i], pc))
  {
    if exists i: nat :: i < |t| - 1 && t[i].low == t[p].low && Contains(t[i], pc) {
      var i := LastContaining(t, pc, t[p].low, |t| - 1);
      assert Matches(t, pc, i);
    }
  }

  lemma {:induction false} LastContaining<V>(t: seq<Entry<V>>, pc: nat, low: nat, n: nat) returns (i: nat)
    requires n <= |t| && exists k: nat :: k < n && t[k].low == low && Contains(t[k], pc)
    ensures i < n && t[i].low == low && Contains(t[i], pc)
    ensures forall j: nat :: i < j < n && t[j].low == low ==> !Contains(t[j], pc)
    decreases n
  {
    if t[n - 1].low == low && Contains(t[n - 1], pc) {
      i := n - 1;
    } else {
      i := LastContaining(t, pc, low, n - 1);
    }
  }

  /** An enclosing range is missed behind an inner one that starts later and has ended. */
  lemma EnclosingMissed()
    ensures var t := [Entry(0, 100, 0), Entry(10, 20, 1), Entry(MAX_PC, MAX_PC, 2)];
      Table(t) && Contains(t[0], 50) && forall i: nat :: !Matches(t, 50, i)
  {
    var t := [Entry(0, 100, 0), Entry(10, 20, 1), Entry(MAX_PC, MAX_PC, 2)];
    assert t[1].low <= 50;
  }

  // ----- tables in which no entry is missed -----

  /** Some entry contains pc, and the lookup finds none. */
  ghost predicate Missed<V>(t: seq<Entry<V>>, pc: nat) {
    && (exists i: nat :: i < |t| - 1 && Contains(t[i], pc))
    && (forall i: nat :: !Matches(t, pc, i))
  }

  /** Entries j .. n - 1 are all those with one start, and entry i starts before them. */
  ghost predicate GroupBehind<V>(t: seq<Entry<V>>, i: nat, j: nat, n: nat) {
    && i < j < n < |t| && t[i].low < t[j].low
    && t[j - 1].low < t[j].low && t[n - 1].low == t[j].low && t[j].low < t[n].low
  }

  /** An entry that reaches into the entries with a later start ends no later than the first of
      them, or that one ends no earlier than the next start. */
  ghost predicate Covered<V>(t: seq<Entry<V>>) {
    forall i: nat, j: nat, n: nat :: GroupBehind(t, i, j, n) ==>
      t[i].high <= t[j].low || t[i].high <= t[j].high || t[n].low <= t[j].high
  }

  lemma {:induction false} FirstOfGroup<V>(t: seq<Entry<V>>, i: nat, p: nat) returns (j: nat)
    requires Table(t) && i < p < |t| - 1 && t[i].low < t[p].low
    ensures i < j <= p && t[j].low == t[p].low && t[j - 1].low < t[j].low
    decreases p
  {
    if t[p - 1].low < t[p].low {
      j := p;
    } else {
      j := FirstOfGroup(t, i, p - 1);
    }
  }

  lemma {:induction false} LastStartFrom<V>(t: seq<Entry<V>>, pc: nat, i: nat) returns (p: nat)
    requires Table(t) && pc < MAX_PC && i + 1 < |t| && t[i].low <= pc
    ensures i <= p && LastStart(t, pc, p)
    decreases |t| - i
  {
    if i + 2 < |t| && t[i + 1].low <= pc {
      p := LastStartFrom(t, pc, i + 1);
    } else {
      p := i;
      assert i + 2 < |t| ==> forall j: nat :: i < j < |t| - 1 ==> t[i + 1].low <= t[j].low;
    }
  }

  lemma CoveredFinds<V>(t: seq<Entry<V>>, pc: nat, i: nat)
    requires Table(t) && Covered(t) && i < |t| - 1 && Contains(t[i], pc)
    ensures exists k: nat :: Matches(t, pc, k)
  {
    hide Matches, Covered;
    var p := LastStartFrom(t, pc, i);
    FoundExactly(t, pc, p);
    if t[i].low < t[p].low {
      var j := FirstOfGroup(t, i, p);
      NextStart(t, pc, p);
      CoveredAt(t, i, j, p + 1);
      hide Table;
      assert Contains(t[j], pc);
    }
  }

  lemma NextStart<V>(t: seq<Entry<V>>, pc: nat, p: nat)
    requires Table(t) && LastStart(t, pc, p) && pc < MAX_PC
    ensures pc < t[p + 1].low
  {
  }

  lemma CoveredAt<V>(t: seq<Entry<V>>, i: nat, j: nat, n: nat)
    requires Covered(t) && GroupBehind(t, i, j, n)
    ensures t[i].high <= t[j].low || t[i].high <= t[j].high || t[n].low <= t[j].high
  {
  }

  lemma UncoveredMisses<V>(t: seq<Entry<V>>, i: nat, j: nat, n: nat) returns (pc: nat)
    requires Table(t) && GroupBehind(t, i, j, n)
    requires t[i].high > t[j].low && t[i].high > t[j].high && t[n].low > t[j].high
    ensures Missed(t, pc)
  {
    pc := if t[j].high > t[j].low then t[j].high else t[j].low;
    assert Contains(t[i], pc);
    StartsAfter(t, pc, n);
    FoundExactly(t, pc, n - 1);
    forall k: nat | k < |t| - 1 && t[k].low == t[n - 1].low ensures !Contains(t[k], pc) {
      assert k < j ==> t[k].low <= t[j - 1].low;
      assert j < k ==> t[j].high >= t[k].high;
    }
  }

  lemma StartsAfter<V>(t: seq<Entry<V>>, pc: nat, n: nat)
    requires Table(t) && 0 < n < |t| && t[n - 1].low <= pc < t[n].low
    ensures LastStart(t, pc, n - 1)
  {
    forall k: nat | n - 1 < k < |t| - 1 ensures t[k].low > pc {
      assert n < k ==> t[n].low <= t[k].low;
    }
  }

  /** The lookup never misses an entry, whatever the address, if and only if the table is covered. */
  lemma NeverMisses<V>(t: seq<Entry<V>>)
    requires Table(t)
    ensures Covered(t) <==> forall pc: nat :: !Missed(t, pc)
  {
    if Covered(t) {
      forall pc: nat ensures !Missed(t, pc) {
        if i: nat :| i < |t| - 1 && Contains(t[i], pc) {
          CoveredFinds(t, pc, i);
        }
      }
    } else {
      var i: nat, j: nat, n: nat :| GroupBehind(t, i, j, n)
        && t[i].high > t[j].low && t[i].high > t[j].high && t[n].low > t[j].high;
      var pc := UncoveredMisses(t, i, j, n);
    }
  }
}
