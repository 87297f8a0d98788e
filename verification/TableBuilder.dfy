/** elf_zlib_inflate_table: builds the decoding table in place from an array of code lengths. */
module TableBuilder {
  import opened Bits
  import opened CanonicalCode
  import opened HiddenSymbol
  import opened HuffmanTable
  import opened TableClash
  import opened TableLayout
  import opened TableSpace

  /** RFC 1951 allows 286 literal/length and 30 distance symbols; the work area holds both. */
  const MAX_SYMBOLS: nat := 286 + 30

  /** Symbol s is the i-th of those with length j. */
  predicate RankIs(lens: seq<nat>, j: nat, i: nat, s: nat) {
    s < |lens| && lens[s] == j && CountBelow(lens, j, s) == i
  }

  // ----- linking the symbols of each length -----

  /** next[u] is the symbol after u among those below n with its length, if there is one. */
  ghost predicate Follows(lens: seq<nat>, n: nat, count: seq<nat>, next: seq<nat>, u: nat)
    requires u < n <= |lens| <= |next|
  {
    lens[u] < |count| ==>
      var r := CountBelow(lens, lens[u], u) + 1;
      r < count[lens[u]] ==> next[u] < n && RankIs(lens, lens[u], r, next[u])
  }

  /** Among the symbols below n: count[j] is the number of length j, start[j] the first of them,
      and next leads from each to the one after it. */
  ghost predicate Linked(lens: seq<nat>, n: nat, count: seq<nat>, start: seq<nat>, next: seq<nat>) {
    && n <= |lens| <= |next| && |count| == |start| == 16
    && (forall j: nat :: j < 16 ==> count[j] == CountBelow(lens, j, n))
    && (forall j: nat :: j < 16 && count[j] > 0 ==> start[j] < n && RankIs(lens, j, 0, start[j]))
    && (forall u: nat :: u < n ==> Follows(lens, n, count, next, u))
  }

  /** prev[j] is the last symbol of length j below n. */
  ghost predicate LastOf(lens: seq<nat>, n: nat, count: seq<nat>, prev: seq<nat>) {
    && n <= |lens| && |count| == |prev| == 16
    && forall j: nat :: j < 16 && count[j] > 0 ==> prev[j] < n && RankIs(lens, j, count[j] - 1, prev[j])
  }

  lemma LinkStep(lens: seq<nat>, n: nat, count: seq<nat>, start: seq<nat>, next: seq<nat>, prev: seq<nat>)
    requires Linked(lens, n, count, start, next) && LastOf(lens, n, count, prev)
    requires n < |lens| && lens[n] < 16 && count[lens[n]] > 0
    ensures prev[lens[n]] < |next|
    ensures Linked(lens, n + 1, count[lens[n] := count[lens[n]] + 1], start, next[prev[lens[n]] := n])
  {
    var j, m := lens[n], n + 1;
    var count', next' := count[j := count[j] + 1], next[prev[j] := n];
    forall u: nat | u < m ensures Follows(lens, m, count', next', u) {
      if u < n {
        assert Follows(lens, n, count, next, u);
        if lens[u] == j && CountBelow(lens, j, u) + 1 == count[j] {
          SameRank(lens, u, prev[j]);
        }
      }
    }
  }

  lemma LastStep(lens: seq<nat>, n: nat, count: seq<nat>, prev: seq<nat>)
    requires LastOf(lens, n, count, prev) && n < |lens| && lens[n] < 16
    requires count[lens[n]] == CountBelow(lens, lens[n], n)
    ensures LastOf(lens, n + 1, count[lens[n] := count[lens[n]] + 1], prev[lens[n] := n])
  {
  }

  lemma LinkFirst(lens: seq<nat>, n: nat, count: seq<nat>, start: seq<nat>, next: seq<nat>)
    requires Linked(lens, n, count, start, next)
    requires n < |lens| && lens[n] < 16 && count[lens[n]] == 0
    ensures Linked(lens, n + 1, count[lens[n] := 1], start[lens[n] := n], next)
  {
    var j, m := lens[n], n + 1;
    var count' := count[j := 1];
    forall u: nat | u < m ensures Follows(lens, m, count', next, u)
    {
      if u < n {
        assert Follows(lens, n, count, next, u);
        if lens[u] == j {
          RankStrict(lens, u, n);
        }
      }
    }
  }

  /** Symbols of one length are told apart by their rank. */
  lemma SameRank(lens: seq<nat>, u: nat, v: nat)
    requires u < |lens| && v < |lens| && lens[u] == lens[v]
    requires CountBelow(lens, lens[u], u) == CountBelow(lens, lens[v], v)
    ensures u == v
  {
    if u < v {
      RankStrict(lens, u, v);
    } else if v < u {
      RankStrict(lens, v, u);
    }
  }

  /** The first loop of the builder.  The C code keeps `next` in the caller's work area. */
  method LinkSymbols(lens: seq<nat>) returns (ok: bool, count: seq<nat>, start: seq<nat>, next: seq<nat>)
    ensures ok <==> forall v: nat :: v < |lens| ==> lens[v] < 16
    ensures ok ==> Linked(lens, |lens|, count, start, next)
  {
    count, start := seq(16, _ => 0), seq(16, _ => 0);
    next := seq(|lens|, _ => 0);
    var prev: seq<nat> := seq(16, _ => 0);
    var i: nat := 0;
    while i < |lens|
      invariant i <= |lens|
      invariant forall v: nat :: v < i ==> lens[v] < 16
      invariant Linked(lens, i, count, start, next)
      invariant LastOf(lens, i, count, prev)
    {
      var j := lens[i];
      if j >= 16 {
        return false, count, start, next;
      }
      if count[j] == 0 {
        LinkFirst(lens, i, count, start, next);
        start := start[j := i];
      } else {
        LinkStep(lens, i, count, start, next, prev);
        next := next[prev[j] := i];
      }
      LastStep(lens, i, count, prev);
      prev := prev[j := i];
      count := count[j := count[j] + 1];
      i := i + 1;
    }
    ok := true;
  }

  // ----- filling every entry that starts with a code -----

  lemma LowStep(x: nat, j: nat)
    requires j > 0
    ensures Low(x, j) == x % 2 + 2 * Low(x / 2, j - 1) && Pow2(j) == 2 * Pow2(j - 1)
  {
  }

  lemma {:induction false} LowPeriod(x: nat, d: nat, j: nat)
    requires d <= Pow2(j)
    ensures Low(x + d, j) == Low(x, j) <==> d == 0 || d == Pow2(j)
    decreases j
  {
    if j == 0 {
      assert Low(x + d, 0) == Low(x, 0) == 0;
    } else {
      LowStep(x, j);
      LowStep(x + d, j);
      hide Low, Pow2;
      if d % 2 == 0 {
        LowPeriod(x / 2, d / 2, j - 1);
        assert (x + d) / 2 == x / 2 + d / 2 && (x + d) % 2 == x % 2;
      } else {
        assert (x + d) % 2 != x % 2;
      }
    }
  }

  /** Entry i lies in the region at base, at an offset whose low n bits are first. */
  predicate InTable(i: nat, base: nat, size: nat, first: nat, n: nat) {
    base <= i < base + size && Low(i - base, n) == first
  }

  /** Stores tval at first, first + 2^j, ... below limit, unless one of those entries is in use. */
  method Fill(table: array<nat>, offset: nat, limit: nat, first: nat, j: nat, tval: nat) returns (ok: bool)
    requires offset + limit <= table.Length && first < Pow2(j)
    modifies table
    ensures ok <==> forall i: nat :: InTable(i, offset, limit, first, j) ==> old(table[i]) == 0
    ensures ok ==> forall i: nat :: i < table.Length ==>
                     table[i] == if InTable(i, offset, limit, first, j) then tval else old(table[i])
  {
    var ind := first;
    LowSmall(first, j);
    forall i: nat | i < first ensures Low(i, j) != first {
      LowSmall(i, j);
    }
    while ind < limit
      invariant Low(ind, j) == first
      invariant forall i: nat :: i < table.Length ==>
                  table[i] == if InTable(i, offset, limit, first, j) && i < offset + ind then tval else old(table[i])
      invariant forall i: nat :: InTable(i, offset, limit, first, j) && i < offset + ind ==> old(table[i]) == 0
    {
      if table[offset + ind] != 0 {
        return false;
      }
      table[offset + ind] := tval;
      LowPeriod(ind, Pow2(j), j);
      assert forall i: nat :: ind < i < ind + Pow2(j) ==> Low(i, j) != first by {
        forall i: nat | ind < i < ind + Pow2(j) ensures Low(i, j) != first {
          LowPeriod(ind, i - ind, j);
        }
      }
      ind := ind + Pow2(j);
    }
    return true;
  }

  // ----- which symbols are installed at each point -----

  /** While lengths go up from 1: the shorter symbols, and the first i of length j, but not a hidden
      one. */
  ghost function Ascending(lens: seq<nat>, j: nat, i: nat): set<nat> {
    set u: nat | u < |lens| && 0 < lens[u] <= j && (lens[u] < j || CountBelow(lens, j, u) < i) && !Hidden(lens, u)
  }

  /** While lengths go down from 15: short symbols, longer symbols, and the first i of length j, but
      not a hidden one. */
  ghost function Descending(lens: seq<nat>, j: nat, i: nat): set<nat> {
    set u: nat | u < |lens| && 0 < lens[u] && !Hidden(lens, u)
                 && (lens[u] <= 8 || lens[u] > j || (lens[u] == j && CountBelow(lens, j, u) < i))
  }

  lemma AscendingStep(lens: seq<nat>, j: nat, i: nat, v: nat)
    requires 0 < j && RankIs(lens, j, i, v)
    ensures v !in Ascending(lens, j, i)
    ensures Ascending(lens, j, i + 1) == if Hidden(lens, v) then Ascending(lens, j, i) else Ascending(lens, j, i) + {v}
  {
    forall u: nat | u < |lens| && lens[u] == j && CountBelow(lens, j, u) == i ensures u == v {
      SameRank(lens, u, v);
    }
  }

  lemma AscendingNext(lens: seq<nat>, j: nat)
    ensures Ascending(lens, j, Count(lens, j)) == Ascending(lens, j + 1, 0)
  {
    forall u: nat | u < |lens| && lens[u] == j ensures CountBelow(lens, j, u) < Count(lens, j) {
      RankStrict(lens, u, |lens|);
    }
  }

  lemma DescendingStep(lens: seq<nat>, j: nat, i: nat, v: nat)
    requires 8 < j && RankIs(lens, j, i, v)
    ensures v !in Descending(lens, j, i)
    ensures Descending(lens, j, i + 1) == Descending(lens, j, i) + {v}
  {
    forall u: nat | u < |lens| && lens[u] == j && CountBelow(lens, j, u) == i ensures u == v {
      SameRank(lens, u, v);
    }
  }

  lemma DescendingNext(lens: seq<nat>, j: nat)
    requires 8 < j
    ensures Descending(lens, j, Count(lens, j)) == Descending(lens, j - 1, 0)
  {
    forall u: nat | u < |lens| && lens[u] == j ensures CountBelow(lens, j, u) < Count(lens, j) {
      RankStrict(lens, u, |lens|);
    }
  }

  lemma {:induction false} CountAtMost(lens: seq<nat>, j: nat, n: nat)
    requires n <= |lens|
    ensures CountBelow(lens, j, n) <= n
    decreases n
  {
    if n > 0 {
      CountAtMost(lens, j, n - 1);
    }
  }

  // ----- codes of at most eight bits -----

  /** Before a hidden symbol, the first of all, nothing is installed; its entry is zero. */
  lemma HiddenFirst(t: seq<nat>, lens: seq<nat>, j: nat, i: nat)
    requires Hidden(lens, 0) && RankIs(lens, j, i, 0) && Layout(t, lens, Ascending(lens, j, i), 0)
    ensures j == 1 && i == 0 && Ascending(lens, j, i) == {} && Entry(0, j - 1) == 0
    ensures forall k: nat :: k < TABLE_SIZE ==> t[k] == 0
  {
    forall k: nat | k < PRIMARY ensures t[k] == 0 {
      assert PrimaryOwned(t, lens, {}, 0, k);
    }
  }

  /** What storing a short code does to the layout. */
  lemma InstalledShort(t: seq<nat>, t': seq<nat>, lens: seq<nat>, j: nat, i: nat, v: nat)
    requires Tame(lens) && 1 <= j <= 8 && RankIs(lens, j, i, v) && IsShort(lens, v)
    requires Layout(t, lens, Ascending(lens, j, i), 0)
    requires |t'| == TABLE_SIZE && ShortWrite(t, t', lens, v)
    ensures Layout(t', lens, Ascending(lens, j, i + 1), 0)
  {
    AscendingStep(lens, j, i, v);
    if Hidden(lens, v) {
      HiddenFirst(t, lens, j, i);
      assert t' == t;
    } else {
      ShortStep(t, t', lens, Ascending(lens, j, i), v);
    }
  }

  lemma ShortEntriesFree(t: seq<nat>, lens: seq<nat>, j: nat, i: nat, v: nat)
    requires Tame(lens) && 1 <= j <= 8 && RankIs(lens, j, i, v) && IsShort(lens, v)
    requires Layout(t, lens, Ascending(lens, j, i), 0)
    ensures forall k: nat :: InTable(k, 0, PRIMARY, RevCode(lens, v), j) ==> t[k] == 0
  {
    AscendingStep(lens, j, i, v);
    forall k: nat | InTable(k, 0, PRIMARY, RevCode(lens, v), j) ensures t[k] == 0 {
      if Hidden(lens, v) {
        HiddenFirst(t, lens, j, i);
      } else {
        ShortFree(t, lens, Ascending(lens, j, i), v, k);
      }
    }
  }

  /** What storing a short code into free entries does to the window that is watched. */
  lemma InstalledShortOnce(t: seq<nat>, t': seq<nat>, lens: seq<nat>, j: nat, i: nat, v: nat)
    requires 1 <= j <= 8 && RankIs(lens, j, i, v) && IsShort(lens, v) && Once(t, lens, Ascending(lens, j, i))
    requires |t| == |t'| == TABLE_SIZE && ShortWrite(t, t', lens, v)
    requires forall k: nat :: InTable(k, 0, PRIMARY, RevCode(lens, v), j) ==> t[k] == 0
    ensures Once(t', lens, Ascending(lens, j, i + 1))
  {
    hide Once, Ascending;
    AscendingStep(lens, j, i, v);
    forall k: nat | k < TABLE_SIZE && t[k] != 0 ensures t'[k] == t[k] {
      assert !InTable(k, 0, PRIMARY, RevCode(lens, v), j);
    }
    if Aims(lens, v) {
      RevBound(Code(lens, v), j);
      LowSmall(Target(lens), j);
      assert InTable(Target(lens), 0, PRIMARY, RevCode(lens, v), j);
      ShortAims(t, t', lens, v);
    }
    OnceAdds(t, t', lens, Ascending(lens, j, i), v);
    OnceKept(t, t', lens, Ascending(lens, j, i));
  }

  /** One iteration of the inner loop for short codes: stores val under its code and advances the
      code.  */
  method InstallShort(lens: seq<nat>, j: nat, i: nat, val: nat, code0: nat, table: array<nat>)
    returns (ok: bool, code: nat)
    requires |lens| <= MAX_SYMBOLS && 1 <= j <= 8 && RankIs(lens, j, i, val)
    requires code0 == Rev(FirstCode(lens, j) + i, j) && table.Length == TABLE_SIZE
    requires Once(table[..], lens, Ascending(lens, j, i))
    requires Tame(lens) ==> Layout(table[..], lens, Ascending(lens, j, i), 0)
    modifies table
    ensures ok ==> Once(table[..], lens, Ascending(lens, j, i + 1))
    ensures Tame(lens) ==> ok && Layout(table[..], lens, Ascending(lens, j, i + 1), 0)
    ensures code == Rev(FirstCode(lens, j) + (i + 1), j)
  {
    hide Once, Ascending, Layout, Tame, Rev, FirstCode;
    ghost var t := table[..];
    RevBound(FirstCode(lens, j) + i, j);
    RevAddOne(FirstCode(lens, j) + i, j);
    code := NextCode(code0, j);
    if val >= VALUE_LIMIT {
      return false, code;
    }
    if Tame(lens) {
      ShortEntriesFree(t, lens, j, i, val);
    }
    ok := Fill(table, 0, PRIMARY, code0, j, Entry(val, j - 1));
    if ok {
      FilledIsShortWrite(t, table[..], lens, val, j);
      InstalledShortOnce(t, table[..], lens, j, i, val);
      if Tame(lens) {
        InstalledShort(t, table[..], lens, j, i, val);
      }
    }
  }

  lemma FilledIsShortWrite(t: seq<nat>, t': seq<nat>, lens: seq<nat>, v: nat, j: nat)
    requires |t| == |t'| == TABLE_SIZE && IsShort(lens, v) && lens[v] == j
    requires forall i: nat :: i < TABLE_SIZE ==>
      t'[i] == if InTable(i, 0, PRIMARY, RevCode(lens, v), j) then Entry(v, j - 1) else t[i]
    ensures ShortWrite(t, t', lens, v)
  {
  }

  /** All symbols of one length j <= 8; `code` is left at the code after the last of them. */
  method FillShort(lens: seq<nat>, j: nat, count: seq<nat>, start: seq<nat>, next: seq<nat>, code0: nat,
                   table: array<nat>)
    returns (ok: bool, code: nat)
    requires |lens| <= MAX_SYMBOLS && 1 <= j <= 8 && Linked(lens, |lens|, count, start, next)
    requires code0 == Rev(FirstCode(lens, j), j) && table.Length == TABLE_SIZE
    requires Once(table[..], lens, Ascending(lens, j, 0))
    requires Tame(lens) ==> Layout(table[..], lens, Ascending(lens, j, 0), 0)
    modifies table
    ensures ok ==> Once(table[..], lens, Ascending(lens, j + 1, 0)) && Count(lens, j) <= Pow2(j)
    ensures Tame(lens) ==> ok && Layout(table[..], lens, Ascending(lens, j + 1, 0), 0)
    ensures ok ==> code == Rev(FirstCode(lens, j) + Count(lens, j), j)
  {
    hide Layout, Ascending, Rev, FirstCode, Once, Tame;
    var jcnt := count[j];
    code := code0;
    AscendingNext(lens, j);
    if jcnt == 0 {
      return true, code;
    }
    if jcnt > Pow2(j) {
      if Tame(lens) {
        CountBound(lens, j);
      }
      return false, code;
    }
    var val := start[j];
    var i := 0;
    while i < jcnt
      invariant i <= jcnt
      invariant i < jcnt ==> RankIs(lens, j, i, val)
      invariant code == Rev(FirstCode(lens, j) + i, j)
      invariant Once(table[..], lens, Ascending(lens, j, i))
      invariant Tame(lens) ==> Layout(table[..], lens, Ascending(lens, j, i), 0)
    {
      var done;
      done, code := InstallShort(lens, j, i, val, code, table);
      if !done {
        return false, code;
      }
      if i + 1 < jcnt {
        assert Follows(lens, |lens|, count, next, val);
        val := next[val];
      }
      i := i + 1;
    }
    ok := true;
  }

  // ----- first codes of the lengths above eight -----

  /** The carry loop: adds one at bit n - 1 towards the less significant end. */
  method CarryDown(code0: nat, n: nat) returns (code: nat)
    ensures code == RevAddBit(code0, n)
  {
    code := code0;
    var m: nat := n;
    while m > 0
      invariant m <= n && RevAddBit(code, m) == RevAddBit(code0, n)
    {
      if !Bit(code, m - 1) {
        return code + Pow2(m - 1);
      }
      BitSet(code, m - 1);
      code := code - Pow2(m - 1);
      m := m - 1;
    }
  }

  /** Bit k of a number splits it further. */
  lemma {:induction false} LowUpTo(x: nat, k: nat)
    ensures Low(x, k) <= x
    ensures x - Low(x, k) < Pow2(k) <==> x - Low(x, k) == 0
    ensures Bit(x - Low(x, k), k) == Bit(x, k)
  {
    if k > 0 {
      LowUpTo(x / 2, k - 1);
      assert (x - Low(x, k)) / 2 == x / 2 - Low(x / 2, k - 1);
    }
  }

  /** Reverse addition of jcnt to the reversed j-bit number x, one bit of jcnt at a time.  What is
      left of jcnt does not fit in j bits. */
  method ReverseAdd(code0: nat, jcnt0: nat, j: nat, ghost x: nat) returns (code: nat, jcnt: nat)
    requires code0 == Rev(x, j)
    ensures jcnt == jcnt0 - Low(jcnt0, j)
    ensures code == Rev(x + Low(jcnt0, j), j)
  {
    hide Low, Rev, RevAddBit, Pow2;
    code, jcnt := code0, jcnt0;
    var k := 0;
    LowNothing(jcnt0);
    while k < j
      invariant k <= j
      invariant Low(jcnt0, k) <= jcnt0 && jcnt == jcnt0 - Low(jcnt0, k)
      invariant code == Rev(x + Low(jcnt0, k), j)
    {
      LowTop(jcnt0, k);
      LowUpTo(jcnt0, k);
      LowUpTo(jcnt0, k + 1);
      if Bit(jcnt, k) {
        RevAddBitAdds(x + Low(jcnt0, k), j, k);
        code := CarryDown(code, j - k);
        jcnt := jcnt - Pow2(k);
      }
      k := k + 1;
    }
  }

  lemma LowNothing(x: nat)
    ensures Low(x, 0) == 0
  {
  }

  lemma RevDouble(x: nat, j: nat)
    requires j > 0
    ensures Rev(2 * x, j) == Rev(x, j - 1)
  {
  }

  /** firstcode[j - 9] is the reversed first code of each length j in use. */
  ghost predicate FirstCodesBelow(lens: seq<nat>, count: seq<nat>, firstcode: seq<nat>, j: nat) {
    && |count| == 16 && |firstcode| == 7
    && forall k: nat :: 9 <= k < j <= 16 && count[k] > 0 ==> firstcode[k - 9] == Rev(FirstCode(lens, k), k)
  }

  method FirstCodes(lens: seq<nat>, count: seq<nat>, code0: nat) returns (ok: bool, firstcode: seq<nat>)
    requires |count| == 16 && forall j: nat :: j < 16 ==> count[j] == Count(lens, j)
    requires code0 == Rev(FirstCode(lens, 8) + Count(lens, 8), 8)
    ensures ok ==> FirstCodesBelow(lens, count, firstcode, 16)
    ensures (forall j: nat :: 9 <= j < 16 ==> Count(lens, j) < Pow2(j)) ==> ok
  {
    firstcode := seq(7, _ => 0);
    var code := code0;
    var j := 9;
    while j < 16
      invariant 9 <= j <= 16
      invariant code == Rev(FirstCode(lens, j - 1) + Count(lens, j - 1), j - 1)
      invariant FirstCodesBelow(lens, count, firstcode, j)
    {
      RevDouble(FirstCode(lens, j - 1) + Count(lens, j - 1), j);
      if count[j] != 0 {
        firstcode := firstcode[j - 9 := code];
        var rest;
        code, rest := ReverseAdd(code, count[j], j, FirstCode(lens, j));
        if rest != 0 {
          if Count(lens, j) < Pow2(j) {
            LowSmall(Count(lens, j), j);
          }
          return false, firstcode;
        }
      }
      j := j + 1;
    }
    ok := true;
  }

  // ----- codes of more than eight bits -----

  /** The secondary table the loop is working on: head entry, offset and size agree, and codes of
      length j fit. */
  ghost predicate Current(t: seq<nat>, primary: nat, secondary: nat, bits: nat, j: nat) {
    && |t| == TABLE_SIZE && primary < PRIMARY && j > 8
    && IsSecondary(t[primary]) && Value(t[primary]) == secondary && SizeBits(t[primary]) == bits
    && j - 8 <= bits
  }

  ghost predicate LongState(t: seq<nat>, lens: seq<nat>, done: set<nat>, ns: nat, j: nat)
    requires j >= 8
  {
    Layout(t, lens, done, ns) && Accounted(t, lens, ns) && Packed(t, ns, j - 8)
  }

  /** Every longer code is installed. */
  ghost predicate LongerDone(lens: seq<nat>, done: set<nat>, j: nat) {
    forall u: nat :: IsLong(lens, u) && lens[u] > j ==> u in done
  }

  /** A table started for a code of length j is exactly as large as its first byte needs. */
  lemma StartNeed(t: seq<nat>, lens: seq<nat>, done: set<nat>, ns: nat, v: nat)
    requires IsLong(lens, v) && LongState(t, lens, done, ns, lens[v]) && LongerDone(lens, done, lens[v])
    requires t[PrimaryOf(lens, v)] == 0
    ensures Need(lens, PrimaryOf(lens, v)) == Pow2(lens[v] - 8)
    ensures ns + Need(lens, PrimaryOf(lens, v)) <= Space(lens)
  {
    var p := PrimaryOf(lens, v);
    LongestFirst(t, lens, done, ns, v);
    hide Layout, LongerDone, PrimaryOf, IsLong, Packed;
    NeedAtLeast(lens, v, |lens|);
    NeedAtMost(lens, p, lens[v], |lens|);
    TakenBound(t, lens, p, PRIMARY);
  }

  /** No longer code starts with a first byte whose entry is still empty. */
  lemma LongestFirst(t: seq<nat>, lens: seq<nat>, done: set<nat>, ns: nat, v: nat)
    requires Layout(t, lens, done, ns) && IsLong(lens, v) && LongerDone(lens, done, lens[v])
    requires t[PrimaryOf(lens, v)] == 0
    ensures forall u: nat :: IsLong(lens, u) && PrimaryOf(lens, u) == PrimaryOf(lens, v) ==> lens[u] <= lens[v]
  {
    forall u: nat | IsLong(lens, u) && PrimaryOf(lens, u) == PrimaryOf(lens, v) ensures lens[u] <= lens[v] {
      assert u in done ==> Done(t, lens, u);
    }
  }

  lemma StartKeepsState(t: seq<nat>, lens: seq<nat>, done: set<nat>, ns: nat, v: nat)
    requires Tame(lens) && IsLong(lens, v) && LongState(t, lens, done, ns, lens[v]) && LongerDone(lens, done, lens[v])
    requires t[PrimaryOf(lens, v)] == 0 && ns < VALUE_LIMIT
    ensures LongState(t[PrimaryOf(lens, v) := Head(ns, lens[v] - 8)], lens, done, ns + Pow2(lens[v] - 8), lens[v])
  {
    hide Tame, Packed, Layout, Accounted, LongerDone;
    assert |t| == TABLE_SIZE by {
      LayoutSize(t, lens, done, ns);
    }
    StartNeed(t, lens, done, ns, v);
    NewSecondary(t, lens, done, ns, v);
    StartAccounted(t, lens, ns, PrimaryOf(lens, v), lens[v] - 8);
    EntryFields(ns, lens[v] - 8);
    PackedStart(t, ns, lens[v] - 8, PrimaryOf(lens, v), Head(ns, lens[v] - 8));
  }

  lemma LayoutSize(t: seq<nat>, lens: seq<nat>, done: set<nat>, ns: nat)
    requires Layout(t, lens, done, ns)
    ensures |t| == TABLE_SIZE
  {
  }

  lemma StartAccounted(t: seq<nat>, lens: seq<nat>, ns: nat, p: nat, bits: nat)
    requires |t| == TABLE_SIZE && p < PRIMARY && t[p] == 0 && ns < VALUE_LIMIT && bits < 8
    requires Accounted(t, lens, ns) && Need(lens, p) == Pow2(bits)
    ensures Accounted(t[p := Head(ns, bits)], lens, ns + Pow2(bits))
  {
    EntryFields(ns, bits);
    TakenStart(t, lens, p, Head(ns, bits), PRIMARY);
  }

  lemma StartIsCurrent(t: seq<nat>, primary: nat, ns: nat, j: nat)
    requires |t| == TABLE_SIZE && primary < PRIMARY && ns < VALUE_LIMIT && 8 < j <= 15
    ensures Current(t[primary := Head(ns, j - 8)], primary, ns, j - 8, j)
  {
    EntryFields(ns, j - 8);
  }

  /** Starts a new secondary table for the first eight bits of code. */
  method StartSecondary(lens: seq<nat>, j: nat, primary: nat, table: array<nat>, ns0: nat, ghost v: nat,
                        ghost done: set<nat>)
    returns (ok: bool, ns: nat)
    requires IsLong(lens, v) && lens[v] == j && primary == PrimaryOf(lens, v)
    requires table.Length == TABLE_SIZE && LongerDone(lens, done, j) && table[primary] == 0
    requires Tame(lens) ==> LongState(table[..], lens, done, ns0, j)
    modifies table
    ensures OnlyAdds(old(table[..]), table[..])
    ensures ok ==> Current(table[..], primary, ns0, j - 8, j)
    ensures Tame(lens) ==> ok || !RoomFor(lens)
    ensures Tame(lens) && ok ==> LongState(table[..], lens, done, ns, j)
  {
    hide LongState, Current, LongerDone, Head, Tame, RoomFor, Need;
    ghost var t := table[..];
    ns := ns0;
    if ns0 >= VALUE_LIMIT {
      if Tame(lens) {
        StartNeed(t, lens, done, ns0, v);
        NoRoomToStart(lens, ns0, primary);
      }
      return false, ns;
    }
    if Tame(lens) {
      StartKeepsState(t, lens, done, ns0, v);
    }
    StartIsCurrent(t, primary, ns0, j);
    ns := ns0 + Pow2(j - 8);
    table[primary] := Head(ns0, j - 8);
    assert table[..] == t[primary := Head(ns0, j - 8)];
    ok := true;
  }

  /** Finds or starts the secondary table for the first eight bits of code. */
  method SelectSecondary(lens: seq<nat>, j: nat, code: nat, table: array<nat>, ns0: nat, ghost v: nat,
                         ghost done: set<nat>)
    returns (ok: bool, secondary: nat, bits: nat, ns: nat)
    requires IsLong(lens, v) && lens[v] == j && code == RevCode(lens, v)
    requires table.Length == TABLE_SIZE && LongerDone(lens, done, j)
    requires Tame(lens) ==> LongState(table[..], lens, done, ns0, j)
    modifies table
    ensures OnlyAdds(old(table[..]), table[..])
    ensures ok ==> Current(table[..], code % PRIMARY, secondary, bits, j)
    ensures Tame(lens) ==> ok || !RoomFor(lens)
    ensures Tame(lens) && ok ==> LongState(table[..], lens, done, ns, j)
  {
    hide Tame, RoomFor, Packed, Layout, Accounted;
    var primary := code % PRIMARY;
    var tprimary := table[primary];
    if tprimary == 0 {
      ok, ns := StartSecondary(lens, j, primary, table, ns0, v, done);
      secondary, bits := ns0, j - 8;
    } else {
      secondary, bits, ns := Value(tprimary), SizeBits(tprimary), ns0;
      ok := IsSecondary(tprimary) && bits >= j - 8;
      if Tame(lens) {
        LongPrimary(table[..], lens, done, ns0, v);
        StartedFits(table[..], lens, ns0, v);
      }
    }
  }

  /** The region a long symbol is written to: base, size, the rest of its code and its length. */
  ghost predicate Region(t: seq<nat>, lens: seq<nat>, v: nat, base: nat, size: nat, rest: nat, n: nat) {
    && base >= PRIMARY && |t| == TABLE_SIZE
    && IsLong(lens, v) && Current(t, PrimaryOf(lens, v), base - PRIMARY, SizeBits(t[PrimaryOf(lens, v)]), lens[v])
    && size == Pow2(SizeBits(t[PrimaryOf(lens, v)]))
    && rest == RevCode(lens, v) / PRIMARY && n == lens[v] - 8
  }

  /** The entries a long symbol is written to are free. */
  lemma LongAllFree(t: seq<nat>, lens: seq<nat>, done: set<nat>, ns: nat, v: nat, base: nat, size: nat, rest: nat,
                    n: nat)
    requires Tame(lens) && Region(t, lens, v, base, size, rest, n)
    requires LongState(t, lens, done, ns, lens[v]) && v !in done
    ensures forall i: nat :: InTable(i, base, size, rest, n) ==> i < TABLE_SIZE && t[i] == 0
  {
    hide Tame, Layout, Pow2, Shl, Shr, Low;
    forall i: nat | InTable(i, base, size, rest, n) ensures i < TABLE_SIZE && t[i] == 0 {
      assert Continues(lens, v, i - base);
      LongFree(t, lens, done, ns, v, i - base);
    }
  }

  lemma RegionIsLongWrite(t: seq<nat>, t': seq<nat>, lens: seq<nat>, v: nat, base: nat, size: nat, rest: nat, n: nat)
    requires Region(t, lens, v, base, size, rest, n) && |t'| == TABLE_SIZE
    requires forall i: nat :: i < TABLE_SIZE ==> t'[i] == if InTable(i, base, size, rest, n) then Entry(v, n) else t[i]
    ensures LongWrite(t, t', lens, v)
  {
  }

  /** Writing a long symbol keeps the layout and the accounting. */
  lemma LongWriteState(t: seq<nat>, t': seq<nat>, lens: seq<nat>, done: set<nat>, ns: nat, v: nat)
    requires Tame(lens) && IsLong(lens, v) && LongState(t, lens, done, ns, lens[v]) && v !in done
    requires IsSecondary(t[PrimaryOf(lens, v)]) && lens[v] - 8 <= SizeBits(t[PrimaryOf(lens, v)])
    requires |t'| == TABLE_SIZE && LongWrite(t, t', lens, v)
    ensures LongState(t', lens, done + {v}, ns, lens[v])
  {
    hide Layout, Packed, Tame;
    LayoutSize(t, lens, done, ns);
    LongStep(t, t', lens, done, ns, v);
    LongWriteHigh(t, t', lens, v);
    TakenSame(t, t', lens, PRIMARY);
    PackedSame(t, t', ns, lens[v] - 8);
  }

  lemma LongWriteHigh(t: seq<nat>, t': seq<nat>, lens: seq<nat>, v: nat)
    requires |t| == |t'| == TABLE_SIZE && IsLong(lens, v) && LongWrite(t, t', lens, v)
    ensures forall p: nat :: p < PRIMARY ==> t'[p] == t[p]
  {
  }

  /** What storing a long code into free entries does to the window that is watched. */
  lemma InstalledLongOnce(t: seq<nat>, t': seq<nat>, lens: seq<nat>, v: nat, done: set<nat>, base: nat, size: nat,
                          rest: nat, n: nat)
    requires Region(t, lens, v, base, size, rest, n) && Once(t, lens, done)
    requires |t'| == TABLE_SIZE && forall i: nat :: InTable(i, base, size, rest, n) ==> i < TABLE_SIZE && t[i] == 0
    requires forall i: nat :: i < TABLE_SIZE ==> t'[i] == if InTable(i, base, size, rest, n) then Entry(v, n) else t[i]
    ensures OnlyAdds(t, t') && Once(t', lens, done + {v})
  {
    hide Once;
    if Aims(lens, v) {
      var c := Target(lens);
      LowSmall(0, n);
      assert rest == 0 && PrimaryOf(lens, v) == c && base == PRIMARY + Value(t[c]);
      assert InTable(base, base, size, rest, n);
      LongAims(t, t', lens, v);
    }
    OnceAdds(t, t', lens, done, v);
  }

  /** Stores val under its code in the current secondary table. */
  method WriteLong(lens: seq<nat>, j: nat, val: nat, code: nat, table: array<nat>, secondary: nat, bits: nat,
                   ghost ns: nat, ghost done: set<nat>) returns (ok: bool)
    requires IsLong(lens, val) && lens[val] == j && code == RevCode(lens, val) && val !in done
    requires table.Length == TABLE_SIZE && Current(table[..], code % PRIMARY, secondary, bits, j)
    requires Once(table[..], lens, done)
    requires Tame(lens) ==> LongState(table[..], lens, done, ns, j)
    modifies table
    ensures ok ==> Current(table[..], code % PRIMARY, secondary, bits, j) && Once(table[..], lens, done + {val})
    ensures Tame(lens) ==> ok && LongState(table[..], lens, done + {val}, ns, j)
  {
    hide Once, Tame, LongState;
    ghost var t := table[..];
    SecondaryIndex(t[code % PRIMARY], 0);
    LongCodeHigh(lens, val);
    var base, size, rest, n := PRIMARY + secondary, Pow2(bits), code / PRIMARY, j - 8;
    if Tame(lens) {
      LongAllFree(t, lens, done, ns, val, base, size, rest, n);
    }
    ok := Fill(table, base, size, rest, n, Entry(val, n));
    if ok {
      InstalledLongOnce(t, table[..], lens, val, done, base, size, rest, n);
      RegionIsLongWrite(t, table[..], lens, val, base, size, rest, n);
      LongWriteHigh(t, table[..], lens, val);
      if Tame(lens) {
        LongWriteState(t, table[..], lens, done, ns, val);
      }
    }
  }

  lemma LongCodeHigh(lens: seq<nat>, v: nat)
    requires IsLong(lens, v)
    ensures RevCode(lens, v) / PRIMARY < Pow2(lens[v] - 8)
  {
    RevBound(Code(lens, v), lens[v]);
    ShrBound(RevCode(lens, v), 8, lens[v] - 8);
    LowByte(RevCode(lens, v));
  }

  /** The table in use when `primary` heads one; 0x100 means none yet. */
  ghost predicate Cached(t: seq<nat>, primary: nat, secondary: nat, bits: nat, j: nat) {
    primary == PRIMARY || Current(t, primary, secondary, bits, j)
  }

  /** One iteration of the inner loop for long codes. */
  method InstallLong(lens: seq<nat>, j: nat, i: nat, val: nat, code0: nat, table: array<nat>,
                     primary0: nat, secondary0: nat, bits0: nat, ns0: nat)
    returns (ok: bool, code: nat, primary: nat, secondary: nat, bits: nat, ns: nat)
    requires |lens| <= MAX_SYMBOLS && 9 <= j <= 15 && RankIs(lens, j, i, val)
    requires code0 == Rev(FirstCode(lens, j) + i, j)
    requires table.Length == TABLE_SIZE && Cached(table[..], primary0, secondary0, bits0, j)
    requires Once(table[..], lens, Descending(lens, j, i))
    requires Tame(lens) ==> LongState(table[..], lens, Descending(lens, j, i), ns0, j)
    modifies table
    ensures code == Rev(FirstCode(lens, j) + (i + 1), j)
    ensures ok ==> Cached(table[..], primary, secondary, bits, j) && Once(table[..], lens, Descending(lens, j, i + 1))
    ensures Tame(lens) ==> ok || !RoomFor(lens)
    ensures Tame(lens) && ok ==> LongState(table[..], lens, Descending(lens, j, i + 1), ns, j)
  {
    hide Once, Tame, LongState, RoomFor, OnlyAdds, Rev, FirstCode;
    ghost var done, t := Descending(lens, j, i), table[..];
    DescendingStep(lens, j, i, val);
    RevBound(FirstCode(lens, j) + i, j);
    RevAddOne(FirstCode(lens, j) + i, j);
    code := NextCode(code0, j);
    ok, primary, secondary, bits, ns := true, primary0, secondary0, bits0, ns0;
    if code0 % PRIMARY != primary {
      primary := code0 % PRIMARY;
      LongerInstalled(lens, j, i);
      ok, secondary, bits, ns := SelectSecondary(lens, j, code0, table, ns0, val, done);
      if !ok {
        return;
      }
      OnceKept(t, table[..], lens, done);
    }
    ok := WriteLong(lens, j, val, code0, table, secondary, bits, ns, done);
  }

  lemma LongerInstalled(lens: seq<nat>, j: nat, i: nat)
    ensures LongerDone(lens, Descending(lens, j, i), j)
  {
  }

  /** All symbols of one length j > 8. */
  method FillLong(lens: seq<nat>, j: nat, count: seq<nat>, start: seq<nat>, next: seq<nat>, firstcode: seq<nat>,
                  table: array<nat>, ns0: nat) returns (ok: bool, ns: nat)
    requires |lens| <= MAX_SYMBOLS && 9 <= j <= 15 && Linked(lens, |lens|, count, start, next)
    requires FirstCodesBelow(lens, count, firstcode, 16) && table.Length == TABLE_SIZE
    requires Once(table[..], lens, Descending(lens, j, 0))
    requires Tame(lens) ==> LongState(table[..], lens, Descending(lens, j, 0), ns0, j)
    modifies table
    ensures ok ==> Once(table[..], lens, Descending(lens, j - 1, 0))
    ensures Tame(lens) ==> ok || !RoomFor(lens)
    ensures Tame(lens) && ok ==> LongState(table[..], lens, Descending(lens, j - 1, 0), ns, j - 1)
  {
    hide Once, Tame, LongState, RoomFor, Rev, FirstCode;
    var jcnt := count[j];
    ns := ns0;
    DescendingNext(lens, j);
    if jcnt == 0 {
      ok := true;
    } else {
      ok, ns := FillLongSome(lens, j, count, start, next, firstcode, table, ns0);
    }
    if Tame(lens) && ok {
      StateBelow(table[..], lens, Descending(lens, j - 1, 0), ns, j);
    }
  }

  lemma StateBelow(t: seq<nat>, lens: seq<nat>, done: set<nat>, ns: nat, j: nat)
    requires 9 <= j && LongState(t, lens, done, ns, j)
    ensures LongState(t, lens, done, ns, j - 1)
  {
  }

  /** The loop over the symbols of one length j > 8, of which there are some. */
  method FillLongSome(lens: seq<nat>, j: nat, count: seq<nat>, start: seq<nat>, next: seq<nat>, firstcode: seq<nat>,
                      table: array<nat>, ns0: nat) returns (ok: bool, ns: nat)
    requires |lens| <= MAX_SYMBOLS && 9 <= j <= 15 && Linked(lens, |lens|, count, start, next) && count[j] > 0
    requires FirstCodesBelow(lens, count, firstcode, 16) && table.Length == TABLE_SIZE
    requires Once(table[..], lens, Descending(lens, j, 0))
    requires Tame(lens) ==> LongState(table[..], lens, Descending(lens, j, 0), ns0, j)
    modifies table
    ensures ok ==> Once(table[..], lens, Descending(lens, j, count[j]))
    ensures Tame(lens) ==> ok || !RoomFor(lens)
    ensures Tame(lens) && ok ==> LongState(table[..], lens, Descending(lens, j, count[j]), ns, j)
  {
    hide Once, Tame, LongState, RoomFor, Rev, FirstCode, Descending, Current;
    var jcnt := count[j];
    ns := ns0;
    var val, code := start[j], firstcode[j - 9];
    var primary, secondary, bits: nat := PRIMARY, 0, 0;
    var i := 0;
    while i < jcnt
      invariant i <= jcnt
      invariant i < jcnt ==> RankIs(lens, j, i, val)
      invariant code == Rev(FirstCode(lens, j) + i, j)
      invariant Cached(table[..], primary, secondary, bits, j)
      invariant Once(table[..], lens, Descending(lens, j, i))
      invariant Tame(lens) ==> LongState(table[..], lens, Descending(lens, j, i), ns, j)
    {
      ok, code, primary, secondary, bits, ns := InstallLong(lens, j, i, val, code, table, primary, secondary, bits, ns);
      if !ok {
        return;
      }
      if i + 1 < jcnt {
        assert Follows(lens, |lens|, count, next, val);
        val := next[val];
      }
      i := i + 1;
    }
    ok := true;
  }

  // ----- the builder -----

  lemma AscendingToDescending(lens: seq<nat>)
    requires forall v: nat :: v < |lens| ==> lens[v] <= MAX_BITS
    ensures Ascending(lens, 9, 0) == Descending(lens, 15, 0)
    ensures forall u: nat :: u in Ascending(lens, 9, 0) ==> lens[u] <= 8
  {
  }

  /** The codes of length j start, reversed, where those of length j - 1 ended. */
  lemma FirstCodeFollows(lens: seq<nat>, j: nat)
    requires j > 0
    ensures Rev(FirstCode(lens, j), j) == if j == 1 then 0 else Rev(FirstCode(lens, j - 1) + Count(lens, j - 1), j - 1)
  {
  }

  lemma AscendingNone(lens: seq<nat>)
    ensures Ascending(lens, 1, 0) == {}
  {
  }

  method FillPrimary(lens: seq<nat>, count: seq<nat>, start: seq<nat>, next: seq<nat>, table: array<nat>)
    returns (ok: bool, code: nat)
    requires |lens| <= MAX_SYMBOLS && Linked(lens, |lens|, count, start, next)
    requires table.Length == TABLE_SIZE && forall i: nat :: i < TABLE_SIZE ==> table[i] == 0
    modifies table
    ensures ok ==> Once(table[..], lens, Ascending(lens, 9, 0)) && Count(lens, 1) <= 2
    ensures Tame(lens) ==> ok && Layout(table[..], lens, Ascending(lens, 9, 0), 0)
    ensures ok ==> code == Rev(FirstCode(lens, 8) + Count(lens, 8), 8)
  {
    hide Layout, Tame, Ascending, FirstCode, Count, Rev, Linked, Once;
    code := 0;
    LayoutEmpty(table[..], lens);
    OnceNone(table[..], lens);
    AscendingNone(lens);
    assert Pow2(1) == 2;
    var j := 1;
    while j <= 8
      invariant 1 <= j <= 9
      invariant code == if j == 1 then 0 else Rev(FirstCode(lens, j - 1) + Count(lens, j - 1), j - 1)
      invariant Once(table[..], lens, Ascending(lens, j, 0)) && (j > 1 ==> Count(lens, 1) <= 2)
      invariant Tame(lens) ==> Layout(table[..], lens, Ascending(lens, j, 0), 0)
    {
      FirstCodeFollows(lens, j);
      ok, code := FillShort(lens, j, count, start, next, code, table);
      if !ok {
        return;
      }
      j := j + 1;
    }
    ok := true;
  }

  method FillSecondary(lens: seq<nat>, count: seq<nat>, start: seq<nat>, next: seq<nat>, firstcode: seq<nat>,
                       table: array<nat>)
    returns (ok: bool, ghost ns: nat)
    requires |lens| <= MAX_SYMBOLS && Linked(lens, |lens|, count, start, next)
    requires FirstCodesBelow(lens, count, firstcode, 16) && table.Length == TABLE_SIZE
    requires Once(table[..], lens, Descending(lens, 15, 0))
    requires Tame(lens) ==> LongState(table[..], lens, Descending(lens, 15, 0), 0, 15)
    modifies table
    ensures ok ==> Once(table[..], lens, Descending(lens, 8, 0))
    ensures Tame(lens) ==> ok || !RoomFor(lens)
    ensures Tame(lens) && ok ==> LongState(table[..], lens, Descending(lens, 8, 0), ns, 8)
  {
    hide Once, Tame, LongState, RoomFor, Descending, Linked, FirstCodesBelow;
    var nextSecondary := 0;
    var j := 15;
    while j >= 9
      invariant 8 <= j <= 15
      invariant Once(table[..], lens, Descending(lens, j, 0))
      invariant Tame(lens) ==> LongState(table[..], lens, Descending(lens, j, 0), nextSecondary, j)
    {
      ok, nextSecondary := FillLong(lens, j, count, start, next, firstcode, table, nextSecondary);
      if !ok {
        ns := nextSecondary;
        return;
      }
      j := j - 1;
    }
    ok, ns := true, nextSecondary;
  }

  lemma InstalledRepresents(t: seq<nat>, lens: seq<nat>, ns: nat)
    requires Fits(lens) && Layout(t, lens, Descending(lens, 8, 0), ns)
    ensures Represents(t, lens)
  {
    forall v: nat, w: nat | Matches(lens, v, w) ensures Lookup(t, w) == (v, lens[v]) {
      assert v in Descending(lens, 8, 0);
      DoneLookup(t, lens, v, w);
    }
  }

  /** Every secondary table that is needed has been started, so there was room for all. */
  lemma InstalledHadRoom(t: seq<nat>, lens: seq<nat>, ns: nat)
    requires LongState(t, lens, Descending(lens, 8, 0), ns, 8)
    ensures RoomFor(lens)
  {
    forall p: nat | p < PRIMARY && Need(lens, p) > 0 ensures IsSecondary(t[p]) {
      var v := NeededBy(lens, p, |lens|);
      assert v in Descending(lens, 8, 0);
      assert Done(t, lens, v);
    }
    PackedHadRoom(t, lens, ns);
  }

  lemma CountsFit(lens: seq<nat>, j: nat)
    requires |lens| <= MAX_SYMBOLS && 9 <= j
    ensures Count(lens, j) < Pow2(j)
  {
    CountAtMost(lens, j, |lens|);
    Pow2Mono(9, j);
    assert Pow2(9) == 512;
  }

  /** All codes are installed. */
  lemma InstalledIsTame(t: seq<nat>, lens: seq<nat>)
    requires Once(t, lens, Descending(lens, 8, 0)) && Count(lens, 1) <= 2
    requires forall v: nat :: v < |lens| ==> lens[v] <= MAX_BITS
    ensures Tame(lens)
  {
    OnceIsTame(t, lens, Descending(lens, 8, 0));
  }

  lemma TameLengths(lens: seq<nat>)
    requires Tame(lens)
    ensures forall v: nat :: v < |lens| ==> lens[v] < 16
  {
    if !Fits(lens) {
      forall v: nat | 0 < v < |lens| ensures lens[v] < 16 {
        assert WithoutZero(lens)[v] == lens[v];
      }
    }
  }

  lemma TameFits(lens: seq<nat>)
    requires lens == [] || lens[0] != 1
    ensures Tame(lens) ==> Fits(lens)
  {
  }

  /** elf_zlib_inflate_table.  The builder succeeds exactly when the lengths are tame and the
      secondary tables have room, and decoding through the table is then exact if and only if the
      lengths meet the Kraft inequality, as they must unless symbol 0 has a code of one bit. */
  method InflateTable(lens: seq<nat>, table: array<nat>) returns (ok: bool)
    requires |lens| <= MAX_SYMBOLS && table.Length == TABLE_SIZE
    modifies table
    ensures ok <==> Tame(lens) && RoomFor(lens)
    ensures ok ==> (Represents(table[..], lens) <==> Fits(lens))
    ensures ok && (lens == [] || lens[0] != 1) ==> Fits(lens)
  {
    if lens == [] || lens[0] != 1 {
      TameFits(lens);
    }
    hide Once, Tame, LongState, RoomFor, Descending, Ascending, Fits, Represents, Layout, FirstCodesBelow, Linked;
    var count, start, next, code, firstcode;
    ok, count, start, next := LinkSymbols(lens);
    if !ok {
      if Tame(lens) {
        TameLengths(lens);
      }
      return;
    }
    forall i | 0 <= i < TABLE_SIZE {
      table[i] := 0;
    }
    ok, code := FillPrimary(lens, count, start, next, table);
    if !ok {
      return;
    }
    LinkedCounts(lens, count, start, next);
    ok, firstcode := FirstCodes(lens, count, code);
    AscendingToDescending(lens);
    if Tame(lens) {
      NothingTaken(table[..], lens);
    }
    ghost var ns;
    ok, ns := FillSecondary(lens, count, start, next, firstcode, table);
    if ok {
      InstalledIsTame(table[..], lens);
      InstalledHadRoom(table[..], lens, ns);
      TableIsExact(table[..], lens, ns);
    }
  }

  lemma LinkedCounts(lens: seq<nat>, count: seq<nat>, start: seq<nat>, next: seq<nat>)
    requires |lens| <= MAX_SYMBOLS && Linked(lens, |lens|, count, start, next)
    ensures |count| == 16 && forall j: nat :: j < 16 ==> count[j] == Count(lens, j)
    ensures forall j: nat :: 9 <= j < 16 ==> Count(lens, j) < Pow2(j)
  {
    forall j: nat | 9 <= j < 16 ensures Count(lens, j) < Pow2(j) {
      CountsFit(lens, j);
    }
  }

  lemma TableIsExact(t: seq<nat>, lens: seq<nat>, ns: nat)
    requires LongState(t, lens, Descending(lens, 8, 0), ns, 8)
    requires forall v: nat :: v < |lens| ==> lens[v] <= MAX_BITS
    ensures Represents(t, lens) <==> Fits(lens)
  {
    if Fits(lens) {
      InstalledRepresents(t, lens, ns);
    } else {
      OversubscribedFails(t, lens);
    }
  }

  lemma OversubscribedFails(t: seq<nat>, lens: seq<nat>)
    requires (forall v: nat :: v < |lens| ==> lens[v] <= MAX_BITS) && !Fits(lens)
    ensures !Represents(t, lens)
  {
    var u, v := Oversubscribed(lens);
    if |t| == TABLE_SIZE {
      var _ := Lookup(t, 0);
    }
  }

  /** After the short codes no secondary table is started. */
  lemma NothingTaken(t: seq<nat>, lens: seq<nat>)
    requires Layout(t, lens, Ascending(lens, 9, 0), 0)
    ensures LongState(t, lens, Ascending(lens, 9, 0), 0, 15)
  {
    forall p: nat | p < PRIMARY ensures !IsSecondary(t[p]) {
      assert PrimaryOwned(t, lens, Ascending(lens, 9, 0), 0, p);
    }
    TakenNone(t, lens, PRIMARY);
  }

  // ----- an over-subscribed code that is accepted -----

  /** Lengths 1, 2, 2, 2 do not meet the Kraft inequality, and yet the builder returns success. */
  method AcceptOversubscribed(table: array<nat>) returns (ok: bool)
    requires table.Length == TABLE_SIZE
    modifies table
    ensures ok && !Fits([1, 2, 2, 2]) && !Represents(table[..], [1, 2, 2, 2])
  {
    OneTwoTwoTwo();
    ok := InflateTable([1, 2, 2, 2], table);
  }

  lemma OneTwoTwoTwo()
    ensures Tame([1, 2, 2, 2]) && !Fits([1, 2, 2, 2]) && RoomFor([1, 2, 2, 2])
  {
    var lens: seq<nat> := [1, 2, 2, 2];
    assert Pow2(13) == 0x2000 && Pow2(14) == 0x4000 && Pow2(15) == 0x8000;
    assert KraftSum(lens, 4) == KraftSum(lens, 3) + 0x2000 && KraftSum(lens, 3) == KraftSum(lens, 2) + 0x2000
        && KraftSum(lens, 2) == KraftSum(lens, 1) + 0x2000 && KraftSum(lens, 1) == 0x4000;
    var rest := WithoutZero(lens);
    assert KraftSum(rest, 4) == KraftSum(rest, 3) + 0x2000 && KraftSum(rest, 3) == KraftSum(rest, 2) + 0x2000
        && KraftSum(rest, 2) == KraftSum(rest, 1) + 0x2000 && KraftSum(rest, 1) == 0;
    assert CountBelow(lens, 1, 4) == CountBelow(lens, 1, 3) == CountBelow(lens, 1, 2) == CountBelow(lens, 1, 1) == 1;
    NineBitsFit(lens);
  }
}
