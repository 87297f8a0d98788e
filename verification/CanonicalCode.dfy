/** The canonical Huffman codes of section 3.2.2 of RFC 1951, and the arithmetic of reading them
    from a stream that packs bits from the least significant end: a code of n bits is seen with
    its bits reversed. */
module CanonicalCode {
  import opened Bits

  const MAX_BITS: nat := 15

  /** The low n bits of x in the opposite order. */
  function Rev(x: nat, n: nat): nat {
    if n == 0 then 0 else (if x % 2 == 1 then Pow2(n - 1) else 0) + Rev(x / 2, n - 1)
  }

  /** Number of symbols below n whose code has length j. */
  function CountBelow(lens: seq<nat>, j: nat, n: nat): nat
    requires n <= |lens|
  {
    if n == 0 then 0 else CountBelow(lens, j, n - 1) + (if lens[n - 1] == j then 1 else 0)
  }

  function Count(lens: seq<nat>, j: nat): nat {
    CountBelow(lens, j, |lens|)
  }

  /** Step 2 of section 3.2.2: the smallest code of each length. */
  function FirstCode(lens: seq<nat>, j: nat): nat {
    if j == 0 then 0
    else 2 * (FirstCode(lens, j - 1) + if j == 1 then 0 else Count(lens, j - 1))
  }

  /** Step 3 of section 3.2.2: symbols of one length get consecutive codes. */
  function Code(lens: seq<nat>, v: nat): nat
    requires v < |lens|
  {
    FirstCode(lens, lens[v]) + CountBelow(lens, lens[v], v)
  }

  /** The code of v as it appears in the low lens[v] bits of the stream. */
  function RevCode(lens: seq<nat>, v: nat): nat
    requires v < |lens|
  {
    Rev(Code(lens, v), lens[v])
  }

  /** Symbol v has a code, and the window w starts with it. */
  predicate Matches(lens: seq<nat>, v: nat, w: nat) {
    v < |lens| && lens[v] > 0 && Low(w, lens[v]) == RevCode(lens, v)
  }

  /** Sum of 2^(15 - length) over the symbols below n that have a code. */
  function KraftSum(lens: seq<nat>, n: nat): nat
    requires n <= |lens|
  {
    if n == 0 then 0
    else KraftSum(lens, n - 1)
         + (if 0 < lens[n - 1] <= MAX_BITS then Pow2(MAX_BITS - lens[n - 1]) else 0)
  }

  /** No length exceeds 15 and the Kraft sum does not exceed one. */
  ghost predicate Fits(lens: seq<nat>) {
    && (forall v :: 0 <= v < |lens| ==> lens[v] <= MAX_BITS)
    && KraftSum(lens, |lens|) <= Pow2(MAX_BITS)
  }

  // ----- reversal -----

  lemma {:induction false} RevBound(x: nat, n: nat)
    ensures Rev(x, n) < Pow2(n)
  {
    if n > 0 {
      RevBound(x / 2, n - 1);
    }
  }

  /** The first i bits read are the i high bits of the code. */
  lemma {:induction false} RevTrunc(x: nat, n: nat, i: nat)
    requires i <= n
    ensures Low(Rev(x, n), i) == Rev(Shr(x, n - i), i)
    decreases n
  {
    RevBound(x, n);
    if i == n {
      LowSmall(Rev(x, n), n);
    } else {
      RevTrunc(x / 2, n - 1, i);
      if x % 2 == 1 {
        LowHigh(Rev(x / 2, n - 1), i, n - 1);
      }
    }
  }

  /** A single bit at position n does not reach the bits below i. */
  lemma {:induction false} LowHigh(x: nat, i: nat, n: nat)
    requires i <= n
    ensures Low(Pow2(n) + x, i) == Low(x, i)
  {
    if i > 0 {
      assert (Pow2(n) + x) / 2 == Pow2(n - 1) + x / 2;
      LowHigh(x / 2, i - 1, n - 1);
    }
  }

  lemma {:induction false} RevInjective(x: nat, y: nat, n: nat)
    requires x < Pow2(n) && y < Pow2(n) && Rev(x, n) == Rev(y, n)
    ensures x == y
  {
    if n > 0 {
      RevBound(x / 2, n - 1);
      RevBound(y / 2, n - 1);
      RevInjective(x / 2, y / 2, n - 1);
    }
  }

  // ----- counting and the Kraft inequality -----

  lemma {:induction false} CountBelowMono(lens: seq<nat>, j: nat, m: nat, n: nat)
    requires m <= n <= |lens|
    ensures CountBelow(lens, j, m) <= CountBelow(lens, j, n)
    decreases n
  {
    if m < n {
      CountBelowMono(lens, j, m, n - 1);
    }
  }

  /** How many symbols of a stretch of equal lengths have length j. */
  lemma {:induction false} CountRun(lens: seq<nat>, a: nat, b: nat, x: nat, j: nat)
    requires a <= b <= |lens| && forall i: nat :: a <= i < b ==> lens[i] == x
    ensures CountBelow(lens, j, b) == CountBelow(lens, j, a) + (if x == j then b - a else 0)
    decreases b
  {
    if a < b {
      CountRun(lens, a, b - 1, x, j);
    }
  }

  lemma {:induction false} KraftZeros(lens: seq<nat>, a: nat, b: nat)
    requires a <= b <= |lens| && forall i: nat :: a <= i < b ==> lens[i] == 0
    ensures KraftSum(lens, b) == KraftSum(lens, a)
    decreases b
  {
    if a < b {
      KraftZeros(lens, a, b - 1);
    }
  }

  /** What a stretch of symbols of length j adds to the Kraft sum. */
  lemma {:induction false} KraftRun(lens: seq<nat>, a: nat, b: nat, j: nat, p: nat)
    requires a <= b <= |lens| && 0 < j <= MAX_BITS && forall i: nat :: a <= i < b ==> lens[i] == j
    requires p == Pow2(MAX_BITS - j)
    ensures KraftSum(lens, b) == KraftSum(lens, a) + (b - a) * p
    decreases b
  {
    if a < b {
      KraftRun(lens, a, b - 1, j, p);
      assert (b - a) * p == (b - 1 - a) * p + p;
    }
  }

  /** The rank of v among the symbols of its length is below their number, and ranks differ. */
  lemma RankStrict(lens: seq<nat>, u: nat, v: nat)
    requires u < v <= |lens|
    ensures CountBelow(lens, lens[u], u) < CountBelow(lens, lens[u], v)
  {
    CountBelowMono(lens, lens[u], u + 1, v);
  }

  /** Kraft sum of the lengths 1..j among the symbols below n, in units of 2^-j. */
  ghost function Used(lens: seq<nat>, j: nat, n: nat): nat
    requires n <= |lens|
  {
    if n == 0 then 0
    else Used(lens, j, n - 1) + (if 0 < lens[n - 1] <= j then Pow2(j - lens[n - 1]) else 0)
  }

  lemma {:induction false} UsedStep(lens: seq<nat>, j: nat, n: nat)
    requires n <= |lens| && j > 0
    ensures Used(lens, j, n) == 2 * Used(lens, j - 1, n) + CountBelow(lens, j, n)
    decreases n
  {
    if n > 0 {
      UsedStep(lens, j, n - 1);
    }
  }

  lemma {:induction false} UsedIsKraft(lens: seq<nat>, n: nat)
    requires n <= |lens|
    ensures Used(lens, MAX_BITS, n) == KraftSum(lens, n)
    decreases n
  {
    if n > 0 {
      UsedIsKraft(lens, n - 1);
    }
  }

  lemma {:induction false} UsedZero(lens: seq<nat>, n: nat)
    requires n <= |lens|
    ensures Used(lens, 0, n) == 0
    decreases n
  {
    if n > 0 {
      UsedZero(lens, n - 1);
    }
  }

  /** The codes of length j end where the Kraft sum says. */
  lemma {:induction false} CodesEnd(lens: seq<nat>, j: nat)
    requires j > 0
    ensures FirstCode(lens, j) + Count(lens, j) == Used(lens, j, |lens|)
    decreases j
  {
    UsedStep(lens, j, |lens|);
    if j == 1 {
      UsedZero(lens, |lens|);
    } else {
      CodesEnd(lens, j - 1);
    }
  }

  lemma {:induction false} UsedBound(lens: seq<nat>, j: nat)
    requires Fits(lens) && j <= MAX_BITS
    ensures Used(lens, j, |lens|) <= Pow2(j)
    decreases MAX_BITS - j
  {
    if j == MAX_BITS {
      UsedIsKraft(lens, |lens|);
    } else {
      UsedBound(lens, j + 1);
      UsedStep(lens, j + 1, |lens|);
    }
  }

  /** A code of length j fits in j bits. */
  lemma CodeBound(lens: seq<nat>, v: nat)
    requires Fits(lens) && v < |lens| && lens[v] > 0
    ensures Code(lens, v) < FirstCode(lens, lens[v]) + Count(lens, lens[v]) <= Pow2(lens[v])
  {
    RankStrict(lens, v, |lens|);
    CodesEnd(lens, lens[v]);
    UsedBound(lens, lens[v]);
  }

  // ----- the codes are prefix-free -----

  /** Every code of a greater length starts after the codes of length i, scaled. */
  lemma {:induction false} FirstCodeGrows(lens: seq<nat>, i: nat, j: nat)
    requires 0 < i < j
    ensures FirstCode(lens, j) >= Shl(FirstCode(lens, i) + Count(lens, i), j - i)
    decreases j
  {
    if j > i + 1 {
      FirstCodeGrows(lens, i, j - 1);
    }
  }

  /** No window starts with the codes of two different symbols. */
  lemma PrefixFree(lens: seq<nat>, u: nat, v: nat, w: nat)
    requires Fits(lens) && Matches(lens, u, w) && Matches(lens, v, w)
    ensures u == v
  {
    if lens[u] <= lens[v] {
      PrefixFreeOrdered(lens, u, v, w);
    } else {
      PrefixFreeOrdered(lens, v, u, w);
    }
  }

  lemma PrefixFreeOrdered(lens: seq<nat>, u: nat, v: nat, w: nat)
    requires Fits(lens) && Matches(lens, u, w) && Matches(lens, v, w)
    requires lens[u] <= lens[v]
    ensures u == v
  {
    var i, j := lens[u], lens[v];
    CodeBound(lens, u);
    CodeBound(lens, v);
    ShorterCodeIsPrefix(w, Code(lens, u), i, Code(lens, v), j);
    if i < j {
      FirstCodeGrows(lens, i, j);
      var e := FirstCode(lens, i) + Count(lens, i);
      ShrMono(Shl(e, j - i), Code(lens, v), j - i);
      ShrShl(e, j - i);
    } else if u < v {
      RankStrict(lens, u, v);
    } else if v < u {
      RankStrict(lens, v, u);
    }
  }

  lemma ShorterCodeIsPrefix(w: nat, cu: nat, i: nat, cv: nat, j: nat)
    requires i <= j && cu < Pow2(i) && cv < Pow2(j)
    requires Low(w, i) == Rev(cu, i) && Low(w, j) == Rev(cv, j)
    ensures Shr(cv, j - i) == cu
  {
    LowLow(w, i, j);
    RevTrunc(cv, j, i);
    ShrBound(cv, j - i, i);
    RevInjective(Shr(cv, j - i), cu, i);
  }

  // ----- an over-subscribed code is ambiguous -----

  lemma {:induction false} SymbolOfRank(lens: seq<nat>, j: nat, r: nat, n: nat) returns (v: nat)
    requires n <= |lens| && r < CountBelow(lens, j, n)
    ensures v < n && lens[v] == j && CountBelow(lens, j, v) == r
    decreases n
  {
    if r == CountBelow(lens, j, n - 1) {
      v := n - 1;
    } else {
      v := SymbolOfRank(lens, j, r, n - 1);
    }
  }

  lemma {:induction false} RevPow2(j: nat)
    ensures Rev(Pow2(j), j) == 0 && Rev(0, j) == 0
  {
    if j > 0 {
      RevPow2(j - 1);
    }
  }

  /** The symbol with the lowest code: no code is shorter, and its code is all zeros. */
  lemma {:induction false} LowestCode(lens: seq<nat>, j: nat) returns (u: nat)
    requires FirstCode(lens, j) > 0
    ensures u < |lens| && 0 < lens[u] < j && Code(lens, u) == 0
    decreases j
  {
    if FirstCode(lens, j - 1) > 0 {
      u := LowestCode(lens, j - 1);
    } else {
      u := SymbolOfRank(lens, j - 1, 0, |lens|);
    }
  }

  /** The length at which the codes run over. */
  lemma {:induction false} OverflowLength(lens: seq<nat>, j: nat) returns (k: nat)
    requires Used(lens, j, |lens|) > Pow2(j)
    ensures 0 < k <= j && Used(lens, k, |lens|) > Pow2(k) && Used(lens, k - 1, |lens|) <= Pow2(k - 1)
    decreases j
  {
    if j == 0 {
      UsedZero(lens, |lens|);
    } else if Used(lens, j - 1, |lens|) <= Pow2(j - 1) {
      k := j;
    } else {
      k := OverflowLength(lens, j - 1);
    }
  }

  /** The first symbol whose code does not fit in its length. */
  lemma OverflowSymbol(lens: seq<nat>, k: nat) returns (v: nat)
    requires 0 < k && Used(lens, k, |lens|) > Pow2(k) && Used(lens, k - 1, |lens|) <= Pow2(k - 1)
    ensures v < |lens| && lens[v] == k && Code(lens, v) == Pow2(k)
  {
    CodesEnd(lens, k);
    UsedStep(lens, k, |lens|);
    v := SymbolOfRank(lens, k, Pow2(k) - FirstCode(lens, k), |lens|);
  }

  lemma ZeroMatches(lens: seq<nat>, v: nat)
    requires v < |lens| && lens[v] > 0 && (Code(lens, v) == 0 || Code(lens, v) == Pow2(lens[v]))
    ensures Matches(lens, v, 0)
  {
    RevPow2(lens[v]);
    LowSmall(0, lens[v]);
  }

  /** When the Kraft sum exceeds one, some window starts with the codes of two symbols, so no
      decoding table can serve both. */
  lemma Oversubscribed(lens: seq<nat>) returns (u: nat, v: nat)
    requires (forall s :: 0 <= s < |lens| ==> lens[s] <= MAX_BITS) && !Fits(lens)
    ensures u != v && Matches(lens, u, 0) && Matches(lens, v, 0)
  {
    UsedIsKraft(lens, |lens|);
    var k := OverflowLength(lens, MAX_BITS);
    v := OverflowSymbol(lens, k);
    if FirstCode(lens, k) == 0 {
      RankStrict(lens, v, |lens|);
      u := SymbolOfRank(lens, k, 0, |lens|);
    } else {
      u := LowestCode(lens, k);
    }
    ZeroMatches(lens, u);
    ZeroMatches(lens, v);
  }
}
