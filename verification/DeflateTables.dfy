/** What the tables of deflate mean: the two rules of section 3.2.2 of RFC 1951 and its example, the
    fixed codes written out, and the ranges of lengths and distances. */
module DeflateTables {
  import opened Options
  import opened Bits
  import opened CanonicalCode
  import opened CompleteCodes
  import opened BitReader
  import opened Deflate
  import opened Inflate

  // ----- the rules of canonical codes -----

  /** Symbols of one length have codes in the order of the symbols, one after the other. */
  lemma SameLengthInOrder(lens: seq<nat>, u: nat, v: nat)
    requires u < v < |lens| && lens[u] == lens[v]
    ensures Code(lens, u) < Code(lens, v)
    ensures (forall i: nat :: u < i < v ==> lens[i] != lens[u]) ==> Code(lens, v) == Code(lens, u) + 1
  {
    RankStrict(lens, u, v);
    if forall i: nat :: u < i < v ==> lens[i] != lens[u] {
      NoneBetween(lens, lens[u], u + 1, v);
    }
  }

  lemma {:induction false} NoneBetween(lens: seq<nat>, j: nat, a: nat, b: nat)
    requires a <= b <= |lens| && forall i: nat :: a <= i < b ==> lens[i] != j
    ensures CountBelow(lens, j, b) == CountBelow(lens, j, a)
    decreases b
  {
    if a < b {
      NoneBetween(lens, j, a, b - 1);
    }
  }

  /** A shorter code comes before every longer one, and is no prefix of it. */
  lemma ShorterFirst(lens: seq<nat>, u: nat, v: nat)
    requires u < |lens| && v < |lens| && 0 < lens[u] < lens[v]
    ensures Code(lens, v) >= Shl(Code(lens, u) + 1, lens[v] - lens[u])
  {
    FirstCodeGrows(lens, lens[u], lens[v]);
    RankStrict(lens, u, |lens|);
    ShlMono(Code(lens, u) + 1, FirstCode(lens, lens[u]) + Count(lens, lens[u]), lens[v] - lens[u]);
  }

  /** The first symbol of the shortest length has the code of all zeros. */
  lemma {:induction false} FirstIsZero(lens: seq<nat>, v: nat)
    requires v < |lens| && lens[v] > 0
    requires forall i: nat :: i < |lens| ==> lens[i] == 0 || lens[i] > lens[v] || (lens[i] == lens[v] && i >= v)
    ensures Code(lens, v) == 0
  {
    NoShorter(lens, lens[v]);
    NoneBetween(lens, lens[v], 0, v);
  }

  lemma {:induction false} NoShorter(lens: seq<nat>, j: nat)
    requires forall i: nat :: i < |lens| ==> lens[i] == 0 || lens[i] >= j
    ensures FirstCode(lens, j) == 0
    decreases j
  {
    if j > 0 {
      NoShorter(lens, j - 1);
      if j > 1 {
        NoneBetween(lens, j - 1, 0, |lens|);
      }
    }
  }

  // ----- a complete code -----

  /** The first n bits of a window as a code, the first bit on top. */
  function Prefix(w: nat, n: nat): nat {
    Rev(Low(w, n), n)
  }

  lemma LowHalves(w: nat, n: nat)
    ensures Low(w, n + 1) / 2 == Low(w / 2, n) && Low(w, n + 1) % 2 == w % 2
    ensures Prefix(w, n + 1) == (if w % 2 == 1 then Pow2(n) else 0) + Prefix(w / 2, n)
  {
  }

  lemma {:induction false} PrefixNext(w: nat, n: nat)
    ensures Prefix(w, n + 1) == 2 * Prefix(w, n) + (if Bit(w, n) then 1 else 0)
  {
    LowHalves(w, n);
    if n == 0 {
      assert Low(w, 1) == w % 2 && Low(w / 2, 0) == 0;
    } else {
      PrefixNext(w / 2, n - 1);
      LowHalves(w, n - 1);
    }
  }

  /** When the Kraft sum is one, every window starts with a code. */
  lemma EveryWindow(lens: seq<nat>, w: nat) returns (v: nat)
    requires Fits(lens) && KraftSum(lens, |lens|) == 0x8000
    ensures Matches(lens, v, w)
  {
    assert Prefix(w, 0) == 0;
    v := WindowFrom(lens, w, 1);
  }

  lemma {:induction false} WindowFrom(lens: seq<nat>, w: nat, j: nat) returns (v: nat)
    requires Fits(lens) && KraftSum(lens, |lens|) == 0x8000 && 0 < j <= MAX_BITS
    requires Prefix(w, j) >= FirstCode(lens, j)
    ensures Matches(lens, v, w)
    decreases MAX_BITS - j
  {
    hide Fits, KraftSum, FirstCode, Prefix;
    if Prefix(w, j) < FirstCode(lens, j) + Count(lens, j) {
      v := SymbolOfRank(lens, j, Prefix(w, j) - FirstCode(lens, j), |lens|);
      LowBound(w, j);
      RevRev(Low(w, j), j);
      PrefixIs(w, j);
    } else {
      CodesFill(lens, w, j);
      v := WindowFrom(lens, w, j + 1);
    }
  }

  lemma PrefixIs(w: nat, n: nat)
    ensures Prefix(w, n) == Rev(Low(w, n), n)
  {
  }

  /** A prefix behind the codes of its length is followed by one that is not before those of the next,
      and the codes of the greatest length leave nothing behind them. */
  lemma CodesFill(lens: seq<nat>, w: nat, j: nat)
    requires KraftSum(lens, |lens|) == 0x8000 && 0 < j <= MAX_BITS
    requires Prefix(w, j) >= FirstCode(lens, j) + Count(lens, j)
    ensures j < MAX_BITS && Prefix(w, j + 1) >= FirstCode(lens, j + 1)
  {
    PrefixNext(w, j);
    CodesEnd(lens, j);
    UsedIsKraft(lens, |lens|);
    RevBound(Low(w, j), j);
    assert Pow2(15) == 0x8000;
  }

  // ----- the example of section 3.2.2 -----

  /** The alphabet A to H. */
  const EIGHT: seq<nat> := [3, 3, 3, 3, 3, 2, 4, 4]

  lemma EightCounts()
    ensures Count(EIGHT, 1) == 0 && Count(EIGHT, 2) == 1 && Count(EIGHT, 3) == 5 && Count(EIGHT, 4) == 2
  {
    NoneBetween(EIGHT, 1, 0, 8);
    CountRun(EIGHT, 0, 5, 3, 2);
    CountRun(EIGHT, 5, 6, 2, 2);
    CountRun(EIGHT, 6, 8, 4, 2);
    CountRun(EIGHT, 0, 5, 3, 3);
    CountRun(EIGHT, 5, 6, 2, 3);
    CountRun(EIGHT, 6, 8, 4, 3);
    CountRun(EIGHT, 0, 5, 3, 4);
    CountRun(EIGHT, 5, 6, 2, 4);
    CountRun(EIGHT, 6, 8, 4, 4);
  }

  /** A to E have 010 to 110, F has 00, G and H have 1110 and 1111. */
  lemma EightCodes()
    ensures forall v: nat :: v < 8 ==> Code(EIGHT, v) == [2, 3, 4, 5, 6, 0, 14, 15][v]
  {
    EightCounts();
    assert FirstCode(EIGHT, 1) == 0;
    assert FirstCode(EIGHT, 2) == 0;
    assert FirstCode(EIGHT, 3) == 2;
    assert FirstCode(EIGHT, 4) == 14;
    forall v: nat | v < 8 ensures Code(EIGHT, v) == [2, 3, 4, 5, 6, 0, 14, 15][v] {
      if v < 5 {
        CountRun(EIGHT, 0, v, 3, 3);
      } else if v == 5 {
        CountRun(EIGHT, 0, 5, 3, 2);
      } else {
        CountRun(EIGHT, 0, 5, 3, 4);
        CountRun(EIGHT, 5, 6, 2, 4);
        CountRun(EIGHT, 6, v, 4, 4);
      }
    }
  }

  /** 011 for B is sent first bit first, so it is seen as 110. */
  lemma EightWindow(w: nat)
    ensures Matches(EIGHT, 1, w) <==> w % 8 == 6
  {
    EightCodes();
    assert Code(EIGHT, 1) == 3;
    assert Rev(3, 3) == 6;
    ShiftMeaning(w, 3);
    assert Pow2(3) == 8;
  }

  // ----- the fixed codes -----

  lemma FixedCount(lit: seq<nat>, j: nat)
    requires lit == FixedLit()
    ensures Count(lit, j) == if j == 7 then 24 else if j == 8 then 152 else if j == 9 then 112 else 0
  {
    CountRun(lit, 0, 144, 8, j);
    CountRun(lit, 144, 256, 9, j);
    CountRun(lit, 256, 280, 7, j);
    CountRun(lit, 280, 288, 8, j);
  }

  lemma FixedFirst(lit: seq<nat>)
    requires lit == FixedLit()
    ensures FirstCode(lit, 7) == 0 && FirstCode(lit, 8) == 48 && FirstCode(lit, 9) == 400
  {
    NoShorter(lit, 7);
    FixedCount(lit, 7);
    FixedCount(lit, 8);
    assert FirstCode(lit, 8) == 48;
  }

  /** The table of section 3.2.6, its codes as numbers: 00110000 is 48, 110010000 is 400 and
      11000000 is 192. */
  lemma FixedLitCodes(v: nat)
    requires v < 288
    ensures v < 144 ==> FixedLit()[v] == 8 && Code(FixedLit(), v) == 48 + v
    ensures 144 <= v < 256 ==> FixedLit()[v] == 9 && Code(FixedLit(), v) == 400 + (v - 144)
    ensures 256 <= v < 280 ==> FixedLit()[v] == 7 && Code(FixedLit(), v) == v - 256
    ensures 280 <= v ==> FixedLit()[v] == 8 && Code(FixedLit(), v) == 192 + (v - 280)
  {
    var lit, j := FixedLit(), FixedLit()[v];
    FixedFirst(lit);
    CountRun(lit, 0, if v < 144 then v else 144, 8, j);
    if v >= 144 {
      CountRun(lit, 144, if v < 256 then v else 256, 9, j);
    }
    if v >= 256 {
      CountRun(lit, 256, if v < 280 then v else 280, 7, j);
    }
    if v >= 280 {
      CountRun(lit, 280, v, 8, j);
    }
  }

  /** Distance codes are the five-bit numbers. */
  lemma FixedDistCodes(v: nat)
    requires v < 32
    ensures FixedDist()[v] == 5 && Code(FixedDist(), v) == v
  {
    NoShorter(FixedDist(), 5);
    CountRun(FixedDist(), 0, v, 5, 5);
  }

  /** Both fixed codes are complete: whatever comes starts with the code of some symbol. */
  lemma FixedComplete(w: nat) returns (lsym: nat, dsym: nat)
    ensures KraftSum(FixedLit(), 288) == KraftSum(FixedDist(), 32) == 0x8000
    ensures Matches(FixedLit(), lsym, w) && Matches(FixedDist(), dsym, w)
  {
    hide Matches, Fits;
    FixedFit();
    assert Pow2(6) == 64 && Pow2(7) == 128 && Pow2(8) == 256 && Pow2(10) == 1024;
    FixedLitSum(FixedLit());
    KraftRun(FixedDist(), 0, 32, 5, 1024);
    lsym := EveryWindow(FixedLit(), w);
    dsym := EveryWindow(FixedDist(), w);
  }

  // ----- lengths and distances -----

  /** Lengths begin at 3, without extra bits for the first eight codes and with one bit more for each
      four codes after; every code begins where the one before ends, and the last, 258, is the length
      that the largest extra bits of code 284 would name as well. */
  lemma LengthLaw(s: nat)
    requires LengthSymbol(s)
    ensures LengthOf(257, 0) == 3
    ensures s < 285 ==> LengthOf(s + 1, 0) == LengthOf(s, 0) + Pow2(LengthExtra(s)) - (if s == 284 then 1 else 0)
    ensures LengthExtra(s) == if s < 265 || s == 285 then 0 else (s - 261) / 4
    ensures LengthOf(285, 0) == 258
  {
    SmallPow2(LengthExtra(s));
  }

  /** Every length from 3 to 258 can be sent. */
  lemma {:induction false} EveryLength(len: nat) returns (s: nat, extra: nat)
    requires 3 <= len <= 258
    ensures LengthSymbol(s) && extra < Pow2(LengthExtra(s)) && LengthOf(s, extra) == len
    decreases len
  {
    hide Pow2;
    if len == 3 {
      s, extra := 257, 0;
      LengthLaw(257);
    } else {
      s, extra := EveryLength(len - 1);
      LengthLaw(s);
      if extra + 1 < Pow2(LengthExtra(s)) {
        extra := extra + 1;
      } else if s < 284 {
        s, extra := s + 1, 0;
        LengthLaw(s);
      }
    }
  }

  /** Distances begin at 1, with one bit more for each two codes from the fifth on; they end at
      32768. */
  lemma DistLaw(s: nat)
    requires DistSymbol(s)
    ensures DistOf(0, 0) == 1
    ensures s < 29 ==> DistOf(s + 1, 0) == DistOf(s, 0) + Pow2(DistExtra(s))
    ensures s == 29 ==> DistOf(s, Pow2(DistExtra(s)) - 1) == 32768
    ensures DistExtra(s) == if s < 4 then 0 else s / 2 - 1
  {
    if s < 15 {
      DistLow(s);
    } else {
      DistHigh(s);
    }
  }

  lemma DistLow(s: nat)
    requires s < 15
    ensures DistOf(s + 1, 0) == DistOf(s, 0) + Pow2(DistExtra(s)) && DistExtra(s) == if s < 4 then 0 else s / 2 - 1
  {
    SmallPow2(DistExtra(s));
  }

  lemma DistHigh(s: nat)
    requires 15 <= s <= 29
    ensures s < 29 ==> DistOf(s + 1, 0) == DistOf(s, 0) + Pow2(DistExtra(s))
    ensures s == 29 ==> DistOf(s, Pow2(DistExtra(s)) - 1) == 32768
    ensures DistExtra(s) == s / 2 - 1
  {
    HighPow2(DistExtra(s));
  }

  lemma HighPow2(k: nat)
    requires 6 <= k <= 13
    ensures Pow2(k) == [64, 128, 256, 512, 1024, 2048, 4096, 8192][k - 6]
  {
  }

  // ----- where the extra bits of a match stand -----

  /** Sixteen bits that carry a match of 20 bytes from 11 back: 0001101 for symbol 269, the extra bits 1
      from the lowest, 00110 for distance symbol 6, and the extra bits 2 from the lowest. */
  const MATCH_BITS: nat := 0x98d8

  lemma MatchFields()
    ensures At(MATCH_BITS, 0, 7) == 88 && At(MATCH_BITS, 7, 2) == 1
    ensures At(MATCH_BITS, 9, 5) == 12 && At(MATCH_BITS, 14, 2) == 2
  {
    var m := MATCH_BITS;
    ShiftMeaning(m, 7);
    assert Pow2(7) == 128 && Pow2(2) == 4 && Pow2(5) == 32;
    assert Shr(m, 7) == 305;
    ShiftMeaning(305, 2);
    ShrShr(m, 7, 2);
    assert Shr(m, 9) == 76;
    ShiftMeaning(76, 5);
    ShrShr(m, 9, 5);
    assert Shr(m, 14) == 2;
  }

  /** A match stands where its four fields do. */
  lemma FieldsOfMatch(m: nat, lit: seq<nat>, dist: seq<nat>, t: Token)
    requires t.Match? && WellFormed(t) && t.lsym < |lit| && t.dsym < |dist| && lit[t.lsym] > 0 && dist[t.dsym] > 0
    requires At(m, 0, lit[t.lsym]) == RevCode(lit, t.lsym) && At(m, lit[t.lsym], LengthExtra(t.lsym)) == t.lextra
    requires var p := lit[t.lsym] + LengthExtra(t.lsym);
      At(m, p, dist[t.dsym]) == RevCode(dist, t.dsym) && At(m, p + dist[t.dsym], DistExtra(t.dsym)) == t.dextra
    ensures TokenAt(m, 0, lit, dist, t)
    ensures TokenEnd(0, lit, dist, t) == lit[t.lsym] + LengthExtra(t.lsym) + dist[t.dsym] + DistExtra(t.dsym)
  {
  }

  lemma MatchAt(m: nat, lit: seq<nat>, dist: seq<nat>)
    requires |lit| == 288 && lit[269] == 7 && RevCode(lit, 269) == 88
    requires |dist| == 32 && dist[6] == 5 && RevCode(dist, 6) == 12
    requires At(m, 0, 7) == 88 && At(m, 7, 2) == 1 && At(m, 9, 5) == 12 && At(m, 14, 2) == 2
    ensures var t := Match(269, 1, 6, 2); TokenAt(m, 0, lit, dist, t) && TokenEnd(0, lit, dist, t) == 16
  {
    hide At, RevCode, TokenAt, TokenEnd, LengthExtra, DistExtra;
    MatchSizes();
    FieldsOfMatch(m, lit, dist, Match(269, 1, 6, 2));
  }

  lemma MatchSizes()
    ensures LengthExtra(269) == 2 && LengthOf(269, 1) == 20 && DistExtra(6) == 2 && DistOf(6, 2) == 11
  {
  }

  lemma MatchCodes()
    ensures FixedLit()[269] == 7 && RevCode(FixedLit(), 269) == 88
    ensures FixedDist()[6] == 5 && RevCode(FixedDist(), 6) == 12
  {
    hide Code, FixedLit, FixedDist, Rev;
    FixedLitCodes(269);
    FixedDistCodes(6);
    MatchReversed();
  }

  lemma MatchReversed()
    ensures Rev(13, 7) == 88 && Rev(6, 5) == 12
  {
  }

  lemma MatchExample()
    ensures var t := Match(269, 1, 6, 2);
      && TokenAt(MATCH_BITS, 0, FixedLit(), FixedDist(), t) && TokenEnd(0, FixedLit(), FixedDist(), t) == 16
      && LengthOf(269, 1) == 20 && DistOf(6, 2) == 11
  {
    hide At, RevCode, FixedLit, FixedDist, TokenAt, TokenEnd;
    MatchFields();
    MatchCodes();
    MatchSizes();
    MatchAt(MATCH_BITS, FixedLit(), FixedDist());
  }
}
