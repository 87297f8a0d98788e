/** The in-place quicksort of sort.c. */
module QSort {

  /** The C comparator: negative, zero or positive. */
  type Compare<!T> = (T, T) -> int

  ghost predicate TotalPreorder<T(!new)>(compar: Compare<T>) {
    && (forall x, y :: compar(x, y) > 0 <==> compar(y, x) < 0)
    && (forall x, y, z :: compar(x, y) <= 0 && compar(y, z) <= 0 ==> compar(x, z) <= 0)
  }

  ghost predicate Sorted<T>(compar: Compare<T>, s: seq<T>) {
    forall i: nat, j: nat :: i < j < |s| ==> compar(s[i], s[j]) <= 0
  }

  /** Nothing in s is above anything in t. */
  ghost predicate Below<T>(compar: Compare<T>, s: seq<T>, t: seq<T>) {
    forall i: nat, j: nat :: i < |s| && j < |t| ==> compar(s[i], t[j]) <= 0
  }

  lemma InPermutation<T>(s: seq<T>, t: seq<T>, i: nat)
    requires multiset(s) == multiset(t) && i < |s|
    ensures s[i] in t
  {
    assert s[i] in multiset(s);
  }

  /** Below does not depend on the order of the elements. */
  lemma BelowPermutation<T>(compar: Compare<T>, s: seq<T>, t: seq<T>, s': seq<T>, t': seq<T>)
    requires Below(compar, s, t) && multiset(s') == multiset(s) && multiset(t') == multiset(t)
    ensures Below(compar, s', t')
  {
    forall i: nat, j: nat | i < |s'| && j < |t'| ensures compar(s'[i], t'[j]) <= 0 {
      InPermutation(s', s, i);
      InPermutation(t', t, j);
    }
  }

  lemma BelowConcat<T>(compar: Compare<T>, s: seq<T>, t: seq<T>, u: seq<T>)
    ensures Below(compar, s, t + u) <==> Below(compar, s, t) && Below(compar, s, u)
    ensures Below(compar, s + t, u) <==> Below(compar, s, u) && Below(compar, t, u)
  {
    if Below(compar, s, t + u) {
      forall i: nat, j: nat | i < |s| && j < |t| ensures compar(s[i], t[j]) <= 0 {
        assert t[j] == (t + u)[j];
      }
      forall i: nat, j: nat | i < |s| && j < |u| ensures compar(s[i], u[j]) <= 0 {
        assert u[j] == (t + u)[|t| + j];
      }
    }
    if Below(compar, s + t, u) {
      forall i: nat, j: nat | i < |s| && j < |u| ensures compar(s[i], u[j]) <= 0 {
        assert s[i] == (s + t)[i];
      }
      forall i: nat, j: nat | i < |t| && j < |u| ensures compar(t[i], u[j]) <= 0 {
        assert t[i] == (s + t)[|s| + i];
      }
    }
  }

  lemma SortedConcat<T>(compar: Compare<T>, s: seq<T>, t: seq<T>)
    requires Sorted(compar, s) && Sorted(compar, t) && Below(compar, s, t)
    ensures Sorted(compar, s + t)
  {
  }

  /** With a comparator that tells different elements apart there is only one sorted order. */
  lemma {:induction false} SortedUnique<T(!new)>(compar: Compare<T>, s: seq<T>, t: seq<T>)
    requires TotalPreorder(compar) && Sorted(compar, s) && Sorted(compar, t) && multiset(s) == multiset(t)
    requires forall i: nat, j: nat :: i < |s| && j < |s| && compar(s[i], s[j]) == 0 ==> s[i] == s[j]
    ensures s == t
    decreases |s|
  {
    hide Sorted, TotalPreorder;
    assert |multiset(s)| == |multiset(t)|;
    if s != [] {
      InPermutation(s, t, 0);
      InPermutation(t, s, 0);
      FirstIsLeast(compar, s, t[0]);
      FirstIsLeast(compar, t, s[0]);
      Ties(compar, s[0], t[0]);
      var k: nat :| k < |s| && s[k] == t[0];
      Tails(s, t);
      SortedTail(compar, s);
      SortedTail(compar, t);
      TellsApart(compar, s);
      SortedUnique(compar, s[1..], t[1..]);
      assert s == [s[0]] + s[1..] && t == [t[0]] + t[1..];
    }
  }

  lemma TellsApart<T(!new)>(compar: Compare<T>, s: seq<T>)
    requires s != [] && forall i: nat, j: nat :: i < |s| && j < |s| && compar(s[i], s[j]) == 0 ==> s[i] == s[j]
    ensures forall i: nat, j: nat :: i < |s[1..]| && j < |s[1..]| && compar(s[1..][i], s[1..][j]) == 0 ==> s[1..][i] == s[1..][j]
  {
  }

  lemma Ties<T(!new)>(compar: Compare<T>, x: T, y: T)
    requires TotalPreorder(compar) && compar(x, y) <= 0 && compar(y, x) <= 0
    ensures compar(x, y) == 0
  {
  }

  lemma Tails<T>(s: seq<T>, t: seq<T>)
    requires s != [] && t != [] && s[0] == t[0] && multiset(s) == multiset(t)
    ensures multiset(s[1..]) == multiset(t[1..])
  {
    assert s == [s[0]] + s[1..] && t == [t[0]] + t[1..];
    assert multiset(s[1..]) == multiset(s) - multiset{s[0]};
    assert multiset(t[1..]) == multiset(t) - multiset{t[0]};
  }

  lemma FirstIsLeast<T(!new)>(compar: Compare<T>, s: seq<T>, x: T)
    requires TotalPreorder(compar) && Sorted(compar, s) && x in s
    ensures compar(s[0], x) <= 0
  {
    assert compar(x, x) > 0 <==> compar(x, x) < 0;
    var k: nat :| k < |s| && s[k] == x;
    if k > 0 {
      assert compar(s[0], s[k]) <= 0;
    }
  }

  lemma SortedTail<T(!new)>(compar: Compare<T>, s: seq<T>)
    requires Sorted(compar, s) && s != []
    ensures Sorted(compar, s[1..])
  {
    var t := s[1..];
    forall i: nat, j: nat | i < j < |t| ensures compar(t[i], t[j]) <= 0 {
      var i', j' := i + 1, j + 1;
      assert t[i] == s[i'] && t[j] == s[j'];
    }
  }

  // ----- recursion depth -----

  function Log2(n: nat): nat {
    if n < 2 then 0 else 1 + Log2(n / 2)
  }

  lemma {:induction false} Log2Mono(m: nat, n: nat)
    requires m <= n
    ensures Log2(m) <= Log2(n)
  {
    if m >= 2 {
      Log2Mono(m / 2, n / 2);
    }
  }

  // ----- swap -----

  /** swap on the bytes of two elements that do not overlap. */
  method SwapBytes<T>(mem: array<T>, a: nat, b: nat, size: nat)
    requires a + size <= b <= mem.Length && b + size <= mem.Length
    modifies mem
    ensures mem[a..a + size] == old(mem[b..b + size]) && mem[b..b + size] == old(mem[a..a + size])
    ensures forall k: nat :: k < mem.Length && !(a <= k < a + size) && !(b <= k < b + size) ==> mem[k] == old(mem[k])
  {
    for i := 0 to size
      invariant forall k: nat :: a <= k < a + i ==> mem[k] == old(mem[k + (b - a)])
      invariant forall k: nat :: b <= k < b + i ==> mem[k] == old(mem[k - (b - a)])
      invariant forall k: nat :: k < mem.Length && !(a <= k < a + i) && !(b <= k < b + i) ==> mem[k] == old(mem[k])
    {
      var t := mem[a + i];
      mem[a + i] := mem[b + i];
      mem[b + i] := t;
    }
  }

  /** t is s with the elements lo .. hi rearranged. */
  ghost predicate Rearranged<T>(s: seq<T>, t: seq<T>, lo: nat, hi: nat) {
    && lo <= hi <= |s| == |t|
    && s[..lo] == t[..lo] && s[hi..] == t[hi..] && multiset(s[lo..hi]) == multiset(t[lo..hi])
  }

  lemma RearrangedNone<T>(s: seq<T>, lo: nat, hi: nat)
    requires lo <= hi <= |s|
    ensures Rearranged(s, s, lo, hi)
  {
  }

  lemma RearrangedTwice<T>(s: seq<T>, t: seq<T>, u: seq<T>, lo: nat, hi: nat)
    requires Rearranged(s, t, lo, hi) && Rearranged(t, u, lo, hi)
    ensures Rearranged(s, u, lo, hi)
  {
  }

  /** A rearrangement of a smaller range. */
  lemma RearrangedWithin<T>(s: seq<T>, t: seq<T>, lo: nat, hi: nat, lo': nat, hi': nat)
    requires lo <= lo' <= hi' <= hi <= |s| && Rearranged(s, t, lo', hi')
    ensures Rearranged(s, t, lo, hi)
    ensures s[lo..lo'] == t[lo..lo'] && s[hi'..hi] == t[hi'..hi]
  {
    assert s[..lo] == s[..lo'][..lo] && t[..lo] == t[..lo'][..lo];
    assert s[hi..] == s[hi'..][hi - hi'..] && t[hi..] == t[hi'..][hi - hi'..];
    assert s[lo..lo'] == s[..lo'][lo..] && t[lo..lo'] == t[..lo'][lo..];
    assert s[hi'..hi] == s[hi'..][..hi - hi'] && t[hi'..hi] == t[hi'..][..hi - hi'];
    assert s[lo..hi] == s[lo..lo'] + (s[lo'..hi'] + s[hi'..hi]);
    assert t[lo..hi] == t[lo..lo'] + (t[lo'..hi'] + t[hi'..hi]);
  }

  function Swapped<T>(s: seq<T>, i: nat, j: nat): seq<T>
    requires i < |s| && j < |s|
  {
    s[i := s[j]][j := s[i]]
  }

  lemma SwapRearranges<T>(s: seq<T>, i: nat, j: nat, lo: nat, hi: nat)
    requires lo <= i < hi <= |s| && lo <= j < hi
    ensures Rearranged(s, Swapped(s, i, j), lo, hi)
  {
    var u, m, n := s[lo..hi], i - lo, j - lo;
    assert Swapped(s, i, j)[lo..hi] == u[m := u[n]][n := u[m]];
  }

  /** swap on two elements of the range lo .. hi of a, of which s0 is an earlier state. */
  method Swap<T>(a: array<T>, i: nat, j: nat, ghost s0: seq<T>, ghost lo: nat, ghost hi: nat)
    requires lo <= i < hi <= a.Length && lo <= j < hi && Rearranged(s0, a[..], lo, hi)
    modifies a
    ensures a[..] == Swapped(old(a[..]), i, j) && Rearranged(s0, a[..], lo, hi)
  {
    ghost var s := a[..];
    SwapRearranges(s, i, j, lo, hi);
    RearrangedTwice(s0, s, Swapped(s, i, j), lo, hi);
    a[i], a[j] := a[j], a[i];
    assert a[..] == Swapped(s, i, j);
  }

  // ----- the sort -----

  /** The pivot is at p; what is between lo and mid is below it, what is between mid and hi is not. */
  ghost predicate Split<T>(compar: Compare<T>, s: seq<T>, p: nat, lo: nat, mid: nat, hi: nat) {
    && p < |s| && lo <= mid <= hi <= |s|
    && (forall k: nat :: lo <= k < mid ==> compar(s[p], s[k]) > 0)
    && (forall k: nat :: mid <= k < hi && k != p ==> compar(s[p], s[k]) <= 0)
  }

  /** The element at i is the first not below the pivot, or is moved to the front part. */
  lemma SplitStep<T>(compar: Compare<T>, s: seq<T>, base: nat, mid: nat, i: nat)
    requires Split(compar, s, base, base + 1, mid, i) && i < |s|
    ensures compar(s[base], s[i]) <= 0 ==> Split(compar, s, base, base + 1, mid, i + 1)
    ensures compar(s[base], s[i]) > 0 ==> Split(compar, Swapped(s, mid, i), base, base + 1, mid + 1, i + 1)
  {
  }

  lemma SplitStart<T>(compar: Compare<T>, s: seq<T>, base: nat)
    requires base < |s|
    ensures Split(compar, s, base, base + 1, base + 1, base + 1)
  {
  }

  lemma SplitEnd<T>(compar: Compare<T>, s: seq<T>, base: nat, mid: nat, high: nat)
    requires Split(compar, s, base, base + 1, mid, high)
    ensures Split(compar, Swapped(s, base, mid - 1), mid - 1, base, mid - 1, high)
  {
  }

  lemma SwapSame<T>(s: seq<T>, i: nat)
    requires i < |s|
    ensures Swapped(s, i, i) == s
  {
  }

  /** Moves a pivot to its place: everything before it is below it, nothing after it is. */
  method Partition<T(!new)>(a: array<T>, base: nat, count: nat, compar: Compare<T>) returns (mid: nat)
    requires count >= 2 && base + count <= a.Length
    modifies a
    ensures mid < count && Rearranged(old(a[..]), a[..], base, base + count)
    ensures Split(compar, a[..], base + mid, base, base + mid, base + count)
  {
    hide Rearranged, Split, Swapped;
    ghost var s0, high := a[..], base + count;
    RearrangedNone(s0, base, high);
    Swap(a, base, base + count / 2, s0, base, high);
    SplitStart(compar, a[..], base);
    mid := 0;
    for i := 1 to count
      invariant mid < i && Rearranged(s0, a[..], base, high)
      invariant Split(compar, a[..], base, base + 1, base + mid + 1, base + i)
    {
      SplitStep(compar, a[..], base, base + mid + 1, base + i);
      if compar(a[base], a[base + i]) > 0 {
        mid := mid + 1;
        if i != mid {
          Swap(a, base + mid, base + i, s0, base, high);
        } else {
          SwapSame(a[..], base + i);
        }
      }
    }
    SplitEnd(compar, a[..], base, base + mid + 1, high);
    if mid > 0 {
      Swap(a, base, base + mid, s0, base, high);
    } else {
      SwapSame(a[..], base);
    }
  }

  /** What is done of the sort: the parts left and right of base .. base + count are in place. */
  ghost predicate Placed<T>(compar: Compare<T>, left: seq<T>, middle: seq<T>, right: seq<T>) {
    && Sorted(compar, left) && Sorted(compar, right)
    && Below(compar, left, middle) && Below(compar, left, right) && Below(compar, middle, right)
  }

  /** The part before the pivot has been sorted: it and the pivot are in place. */
  lemma PlaceLeft<T(!new)>(compar: Compare<T>, left: seq<T>, middle: seq<T>, right: seq<T>, m1: seq<T>, p: T,
                    m2: seq<T>)
    requires TotalPreorder(compar) && Placed(compar, left, middle, right)
    requires multiset(m1 + [p] + m2) == multiset(middle)
    requires Sorted(compar, m1)
    requires Below(compar, m1, [p]) && Below(compar, [p], m2)
    ensures Placed(compar, left + (m1 + [p]), m2, right)
  {
    hide Sorted, Below, TotalPreorder;
    BelowPermutation(compar, left, middle, left, m1 + [p] + m2);
    BelowPermutation(compar, middle, right, m1 + [p] + m2, right);
    BelowConcat(compar, left, m1 + [p], m2);
    BelowConcat(compar, m1 + [p], m2, right);
    BelowThrough(compar, m1, p, m2);
    BelowConcat(compar, m1, [p], m2);
    BelowConcat(compar, left, m1 + [p], m2);
    BelowConcat(compar, left, m1 + [p], right);
    SortedOne(compar, p);
    SortedConcat(compar, m1, [p]);
    SortedConcat(compar, left, m1 + [p]);
  }

  /** The part after the pivot has been sorted: the pivot and it are in place. */
  lemma PlaceRight<T(!new)>(compar: Compare<T>, left: seq<T>, middle: seq<T>, right: seq<T>, m1: seq<T>, p: T,
                     m2: seq<T>)
    requires TotalPreorder(compar) && Placed(compar, left, middle, right)
    requires multiset(m1 + ([p] + m2)) == multiset(middle)
    requires Sorted(compar, m2)
    requires Below(compar, m1, [p]) && Below(compar, [p], m2)
    ensures Placed(compar, left, m1, ([p] + m2) + right)
  {
    hide Sorted, Below, TotalPreorder;
    BelowPermutation(compar, left, middle, left, m1 + ([p] + m2));
    BelowPermutation(compar, middle, right, m1 + ([p] + m2), right);
    BelowConcat(compar, left, m1, [p] + m2);
    BelowConcat(compar, m1, [p] + m2, right);
    BelowThrough(compar, m1, p, m2);
    BelowConcat(compar, m1, [p], m2);
    BelowConcat(compar, m1, [p] + m2, right);
    BelowConcat(compar, left, [p] + m2, right);
    SortedOne(compar, p);
    SortedConcat(compar, [p], m2);
    SortedConcat(compar, [p] + m2, right);
  }

  lemma SortedOne<T(!new)>(compar: Compare<T>, p: T)
    ensures Sorted(compar, [p])
  {
  }

  lemma BelowThrough<T(!new)>(compar: Compare<T>, s: seq<T>, p: T, t: seq<T>)
    requires TotalPreorder(compar) && Below(compar, s, [p]) && Below(compar, [p], t)
    ensures Below(compar, s, t)
  {
    forall i: nat, j: nat | i < |s| && j < |t| ensures compar(s[i], t[j]) <= 0 {
      assert compar(s[i], [p][0]) <= 0 && compar([p][0], t[j]) <= 0;
    }
  }

  /** The three parts of the range base0 .. end that the loop distinguishes. */
  ghost predicate PlacedIn<T>(compar: Compare<T>, s: seq<T>, base0: nat, base: nat, high: nat, end: nat) {
    base0 <= base <= high <= end <= |s| && Placed(compar, s[base0..base], s[base..high], s[high..end])
  }

  lemma SamePart<T>(s: seq<T>, t: seq<T>, lo: nat, lo': nat, hi': nat, hi: nat)
    requires lo <= lo' <= hi' <= hi <= |s| && hi <= |t| && s[lo..hi] == t[lo..hi]
    ensures s[lo'..hi'] == t[lo'..hi']
  {
    forall k: nat | lo' <= k < hi' ensures s[k] == t[k] {
      assert s[k] == s[lo..hi][k - lo] && t[k] == t[lo..hi][k - lo];
    }
  }

  /** The range split at the pivot. */
  lemma Slices<T>(s: seq<T>, base0: nat, base: nat, p: nat, high: nat, end: nat)
    requires base0 <= base <= p < high <= end <= |s|
    ensures s[base..high] == s[base..p] + [s[p]] + s[p + 1..high] == s[base..p] + ([s[p]] + s[p + 1..high])
    ensures s[base0..p + 1] == s[base0..base] + (s[base..p] + [s[p]])
    ensures s[p..end] == ([s[p]] + s[p + 1..high]) + s[high..end]
  {
  }

  lemma BelowPivot<T>(compar: Compare<T>, s: seq<T>, base: nat, p: nat, high: nat)
    requires forall x, y :: compar(x, y) > 0 <==> compar(y, x) < 0
    requires base <= p < high <= |s|
    requires Split(compar, s, p, base, p, high)
    ensures Below(compar, s[base..p], [s[p]]) && Below(compar, [s[p]], s[p + 1..high])
  {
  }

  /** Rearranging inside a range keeps its other parts. */
  lemma Kept<T>(s0: seq<T>, s1: seq<T>, s2: seq<T>, base0: nat, base: nat, lo: nat, hi: nat, high: nat, end: nat)
    requires base0 <= base <= lo <= hi <= high <= end <= |s0|
    requires Rearranged(s0, s1, base, high) && Rearranged(s1, s2, lo, hi)
    ensures |s2| == |s1| == |s0|
    ensures s2[base0..base] == s0[base0..base] && s2[high..end] == s0[high..end]
    ensures multiset(s2[base..high]) == multiset(s0[base..high])
    ensures s2[base..lo] == s1[base..lo] && s2[hi..high] == s1[hi..high] && multiset(s2[lo..hi]) == multiset(s1[lo..hi])
    ensures Rearranged(s0, s2, base0, end)
  {
    RearrangedWithin(s1, s2, base, high, lo, hi);
    RearrangedTwice(s0, s1, s2, base, high);
    RearrangedWithin(s0, s2, base0, end, base, high);
  }

  /** Partitioning around the pivot at p and sorting what is before it. */
  lemma PlaceLeftIn<T(!new)>(compar: Compare<T>, s0: seq<T>, s1: seq<T>, s2: seq<T>,
                             base0: nat, base: nat, p: nat, high: nat, end: nat)
    requires TotalPreorder(compar) && PlacedIn(compar, s0, base0, base, high, end)
    requires base <= p < high && Rearranged(s0, s1, base, high) && Rearranged(s1, s2, base, p)
    requires Split(compar, s1, p, base, p, high)
    requires Sorted(compar, s2[base..p])
    ensures PlacedIn(compar, s2, base0, p + 1, high, end)
  {
    hide Placed, Sorted;
    Kept(s0, s1, s2, base0, base, base, p, high, end);
    BelowPivot(compar, s1, base, p, high);
    hide Rearranged, Below, TotalPreorder, Split;
    SamePart(s1, s2, p, p, p + 1, high);
    SamePart(s1, s2, p, p + 1, high, high);
    Slices(s2, base0, base, p, high, end);
    assert s1[p..p + 1] == [s1[p]] && s2[p..p + 1] == [s2[p]];
    BelowPermutation(compar, s1[base..p], [s1[p]], s2[base..p], [s2[p]]);
    PlaceLeft(compar, s0[base0..base], s0[base..high], s0[high..end], s2[base..p], s2[p], s2[p + 1..high]);
  }

  /** Partitioning around the pivot at p and sorting what is after it. */
  lemma PlaceRightIn<T(!new)>(compar: Compare<T>, s0: seq<T>, s1: seq<T>, s2: seq<T>,
                              base0: nat, base: nat, p: nat, high: nat, end: nat)
    requires TotalPreorder(compar) && PlacedIn(compar, s0, base0, base, high, end)
    requires base <= p < high && Rearranged(s0, s1, base, high) && Rearranged(s1, s2, p + 1, high)
    requires Split(compar, s1, p, base, p, high)
    requires Sorted(compar, s2[p + 1..high])
    ensures PlacedIn(compar, s2, base0, base, p, end)
  {
    hide Placed, Sorted, Rearranged, Split;
    Kept(s0, s1, s2, base0, base, p + 1, high, high, end);
    BelowPivot(compar, s1, base, p, high);
    hide Rearranged, Below, TotalPreorder, Split;
    SamePart(s1, s2, base, p, p + 1, p + 1);
    SamePart(s1, s2, base, base, p, p + 1);
    Slices(s2, base0, base, p, high, end);
    assert s1[p..p + 1] == [s1[p]] && s2[p..p + 1] == [s2[p]];
    BelowPermutation(compar, [s1[p]], s1[p + 1..high], [s2[p]], s2[p + 1..high]);
    PlaceRight(compar, s0[base0..base], s0[base..high], s0[high..end], s2[base..p], s2[p], s2[p + 1..high]);
  }

  /** Fewer than two elements are left to place. */
  lemma PlacedAll<T(!new)>(compar: Compare<T>, s: seq<T>, base0: nat, base: nat, high: nat, end: nat)
    requires PlacedIn(compar, s, base0, base, high, end) && high < base + 2
    ensures Sorted(compar, s[base0..end])
  {
    var left, middle, right := s[base0..base], s[base..high], s[high..end];
    assert Sorted(compar, middle);
    hide Sorted, Below;
    SortedConcat(compar, left, middle);
    BelowConcat(compar, left, middle, right);
    SortedConcat(compar, left + middle, right);
    assert s[base0..end] == left + middle + right;
  }

  lemma PlacedNone<T(!new)>(compar: Compare<T>, s: seq<T>, base: nat, end: nat)
    requires base <= end <= |s|
    ensures PlacedIn(compar, s, base, base, end, end)
  {
  }

  /** backtrace_qsort: for every comparator a permutation, for a total preorder a sorted one, with a
      recursion no deeper than floor(log2(count)) + 1. */
  method QSort<T(!new)>(a: array<T>, base0: nat, count0: nat, compar: Compare<T>) returns (ghost depth: nat)
    requires base0 + count0 <= a.Length
    modifies a
    ensures Rearranged(old(a[..]), a[..], base0, base0 + count0)
    ensures TotalPreorder(compar) ==> Sorted(compar, a[..][base0..base0 + count0])
    ensures depth <= Log2(count0) + 1
    decreases count0
  {
    hide Sorted, TotalPreorder, Placed, PlacedIn, Rearranged, Split;
    var base: nat, count: nat := base0, count0;
    ghost var s0, high, end := a[..], base0 + count0, base0 + count0;
    depth := 1;
    PlacedNone(compar, s0, base0, end);
    RearrangedNone(s0, base0, end);
    while count >= 2
      invariant base0 <= base && base + count == high <= end
      invariant Rearranged(s0, a[..], base0, end)
      invariant TotalPreorder(compar) ==> PlacedIn(compar, a[..], base0, base, high, end)
      invariant 1 <= depth <= Log2(count0) + 1
      decreases count
    {
      ghost var t0 := a[..];
      var mid := Partition(a, base, count, compar);
      ghost var t1, p := a[..], base + mid;
      ghost var d;
      if 2 * mid < count {
        d := QSort(a, base, mid, compar);
        LeftDone(compar, s0, t0, t1, a[..], base0, base, p, high, end);
        Log2Mono(mid, count0 / 2);
        base := base + (mid + 1);
        count := count - (mid + 1);
      } else {
        d := QSort(a, base + (mid + 1), count - (mid + 1), compar);
        RightDone(compar, s0, t0, t1, a[..], base0, base, p, high, end);
        Log2Mono(count - (mid + 1), count0 / 2);
        count := mid;
        high := p;
      }
      depth := if depth < 1 + d then 1 + d else depth;
    }
    if TotalPreorder(compar) {
      PlacedAll(compar, a[..], base0, base, high, end);
    }
  }

  lemma LeftDone<T(!new)>(compar: Compare<T>, s0: seq<T>, t0: seq<T>, t1: seq<T>, t2: seq<T>,
                          base0: nat, base: nat, p: nat, high: nat, end: nat)
    requires base0 <= base <= p < high <= end <= |t0|
    requires Rearranged(s0, t0, base0, end) && Rearranged(t0, t1, base, high) && Rearranged(t1, t2, base, p)
    requires TotalPreorder(compar) ==> PlacedIn(compar, t0, base0, base, high, end)
    requires TotalPreorder(compar) ==> p <= |t2| && Sorted(compar, t2[base..p])
    requires Split(compar, t1, p, base, p, high)
    ensures Rearranged(s0, t2, base0, end)
    ensures TotalPreorder(compar) ==> PlacedIn(compar, t2, base0, p + 1, high, end)
  {
    hide Rearranged, PlacedIn, Sorted, TotalPreorder, Split;
    Kept(t0, t1, t2, base0, base, base, p, high, end);
    RearrangedTwice(s0, t0, t2, base0, end);
    if TotalPreorder(compar) {
      PlaceLeftIn(compar, t0, t1, t2, base0, base, p, high, end);
    }
  }

  lemma RightDone<T(!new)>(compar: Compare<T>, s0: seq<T>, t0: seq<T>, t1: seq<T>, t2: seq<T>,
                           base0: nat, base: nat, p: nat, high: nat, end: nat)
    requires base0 <= base <= p < high <= end <= |t0|
    requires Rearranged(s0, t0, base0, end) && Rearranged(t0, t1, base, high) && Rearranged(t1, t2, p + 1, high)
    requires TotalPreorder(compar) ==> PlacedIn(compar, t0, base0, base, high, end)
    requires TotalPreorder(compar) ==> high <= |t2| && Sorted(compar, t2[p + 1..high])
    requires Split(compar, t1, p, base, p, high)
    ensures Rearranged(s0, t2, base0, end)
    ensures TotalPreorder(compar) ==> PlacedIn(compar, t2, base0, base, p, end)
  {
    hide Rearranged, PlacedIn, Sorted, TotalPreorder, Split;
    Kept(t0, t1, t2, base0, base, p + 1, high, high, end);
    RearrangedTwice(s0, t0, t2, base0, end);
    if TotalPreorder(compar) {
      PlaceRightIn(compar, t0, t1, t2, base0, base, p, high, end);
    }
  }
}
