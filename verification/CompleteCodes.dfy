/** Why the secondary area is large enough: the secondary tables of a complete code have at most 120
    entries more than the code has symbols.

    In the order in which codes are assigned, the codes of more than eight bits fill one block of
    the code space after another, a block being the codes that share their first eight bits.  Codes
    get longer along the way, so the size of the table of a block is set by the last code in it, and
    only the blocks in which the length grows have more entries than symbols. */
module CompleteCodes {
  import opened Bits
  import opened CanonicalCode
  import opened HiddenSymbol
  import opened HuffmanTable
  import opened TableLayout
  import opened TableSpace

  // ----- where the codes of each length end -----

  /** The first code of j bits that is longer than all codes of at most j bits. */
  function CodeEnd(lens: seq<nat>, j: nat): nat {
    FirstCode(lens, j) + if j == 0 then 0 else Count(lens, j)
  }

  lemma CodeEndStep(lens: seq<nat>, j: nat)
    ensures FirstCode(lens, j + 1) == 2 * CodeEnd(lens, j)
    ensures CodeEnd(lens, j + 1) == 2 * CodeEnd(lens, j) + Count(lens, j + 1)
  {
  }

  /** How many blocks are filled by codes of at most j bits, and what is left over. */
  function Full(lens: seq<nat>, j: nat): nat
    requires 8 <= j
  {
    Shr(CodeEnd(lens, j), j - 8)
  }

  function Left(lens: seq<nat>, j: nat): (s: nat)
    requires 8 <= j
    ensures s < Pow2(j - 8)
  {
    LowBound(CodeEnd(lens, j), j - 8);
    Low(CodeEnd(lens, j), j - 8)
  }

  /** The entries of the tables for the blocks that a code of j bits completes. */
  function Level(lens: seq<nat>, j: nat): nat
    requires 8 < j
  {
    if Full(lens, j) >= Full(lens, j - 1) then Shl(Full(lens, j) - Full(lens, j - 1), j - 8) else 0
  }

  lemma FullGrows(lens: seq<nat>, j: nat)
    requires 8 < j
    ensures Full(lens, j) >= Full(lens, j - 1)
  {
    CodeEndStep(lens, j - 1);
    ShrMono(2 * CodeEnd(lens, j - 1), CodeEnd(lens, j), j - 8);
  }

  lemma LevelSize(lens: seq<nat>, j: nat)
    requires 8 < j
    ensures Level(lens, j) + Left(lens, j) == Count(lens, j) + 2 * Left(lens, j - 1)
  {
    hide FirstCode, Count, Shr, Low;
    FullGrows(lens, j);
    CodeEndStep(lens, j - 1);
    Split(CodeEnd(lens, j), j - 8);
    Split(CodeEnd(lens, j - 1), j - 9);
    ShlAdd(Full(lens, j) - Full(lens, j - 1), Full(lens, j - 1), j - 8);
  }

  /** The levels of 9..j bits. */
  function Levels(lens: seq<nat>, j: nat): nat
    requires 8 <= j
  {
    if j == 8 then 0 else Levels(lens, j - 1) + Level(lens, j)
  }

  /** Symbols below n with 9..j bits. */
  function LongBelow(lens: seq<nat>, j: nat, n: nat): nat
    requires 8 <= j && n <= |lens|
  {
    if j == 8 then 0 else LongBelow(lens, j - 1, n) + CountBelow(lens, j, n)
  }

  lemma {:induction false} LongStep(lens: seq<nat>, j: nat, n: nat)
    requires 8 <= j && 0 < n <= |lens|
    ensures LongBelow(lens, j, n) == LongBelow(lens, j, n - 1) + (if 8 < lens[n - 1] <= j then 1 else 0)
    decreases j
  {
    if j > 8 {
      LongStep(lens, j - 1, n);
    }
  }

  lemma {:induction false} LongNone(lens: seq<nat>, j: nat)
    requires 8 <= j
    ensures LongBelow(lens, j, 0) == 0
    decreases j
  {
    if j > 8 {
      LongNone(lens, j - 1);
    }
  }

  lemma {:induction false} LongAtMost(lens: seq<nat>, j: nat, n: nat)
    requires 8 <= j && n <= |lens|
    ensures LongBelow(lens, j, n) <= n
    decreases n
  {
    if n > 0 {
      LongAtMost(lens, j, n - 1);
      LongStep(lens, j, n);
    } else {
      LongNone(lens, j);
    }
  }

  /** The blocks completed with at most j bits have hardly more entries than there are symbols. */
  lemma {:induction false} LevelsBound(lens: seq<nat>, j: nat)
    requires 9 <= j
    ensures Levels(lens, j) + Left(lens, j) + 1 + (j - 8) <= LongBelow(lens, j, |lens|) + Pow2(j - 8)
    decreases j
  {
    LevelSize(lens, j);
    if j > 9 {
      LevelsBound(lens, j - 1);
    } else {
      assert Pow2(0) == 1 && Pow2(1) == 2;
      assert Levels(lens, 8) == LongBelow(lens, 8, |lens|) == Left(lens, 8) == 0;
    }
  }

  // ----- the block of a first byte -----

  lemma {:induction false} RevHigh(y: nat, n: nat, b: nat)
    requires y < Pow2(n) && b < 2
    ensures Rev(y + (if b == 1 then Pow2(n) else 0), n + 1) == b + 2 * Rev(y, n)
    decreases n
  {
    if n > 0 {
      RevHigh(y / 2, n - 1, b);
      assert (y + (if b == 1 then Pow2(n) else 0)) / 2 == y / 2 + (if b == 1 then Pow2(n - 1) else 0);
    }
  }

  lemma {:induction false} RevRev(x: nat, n: nat)
    requires x < Pow2(n)
    ensures Rev(Rev(x, n), n) == x
  {
    if n > 0 {
      RevBound(x / 2, n - 1);
      RevRev(x / 2, n - 1);
      RevHigh(Rev(x / 2, n - 1), n - 1, x % 2);
    }
  }

  /** The block of the codes that are read with first byte p. */
  function Block(p: nat): nat {
    Rev(p, 8)
  }

  /** The first eight bits of a code, in the order of the code and in that of the stream. */
  lemma BlockOf(lens: seq<nat>, u: nat)
    requires Fits(lens) && IsLong(lens, u)
    ensures PrimaryOf(lens, u) < PRIMARY && Block(PrimaryOf(lens, u)) == Shr(Code(lens, u), lens[u] - 8) < PRIMARY
  {
    var c, j := Code(lens, u), lens[u];
    CodeBound(lens, u);
    assert Pow2(8) == 256;
    RevTrunc(c, j, 8);
    ShiftMeaning(RevCode(lens, u), 8);
    ShrBound(c, j - 8, 8);
    RevRev(Shr(c, j - 8), 8);
  }

  /** The next longer length in use, or none. */
  lemma {:induction false} NextUsed(lens: seq<nat>, j: nat) returns (k: nat)
    requires 8 <= j <= MAX_BITS
    ensures k == 0 ==> Full(lens, MAX_BITS) == Full(lens, j)
    ensures k != 0 ==> j < k <= MAX_BITS && Count(lens, k) > 0 && Shr(FirstCode(lens, k), k - 8) == Full(lens, j)
    decreases MAX_BITS - j
  {
    k := 0;
    if j < MAX_BITS {
      CodeEndStep(lens, j);
      if Count(lens, j + 1) > 0 {
        k := j + 1;
      } else {
        k := NextUsed(lens, j + 1);
      }
    }
  }

  /** The code that sets the size of a table. */
  lemma {:induction false} NeedSetter(lens: seq<nat>, p: nat, n: nat) returns (u: nat)
    requires n <= |lens| && NeedAt(lens, p, n) > 0
    ensures u < n && IsLong(lens, u) && PrimaryOf(lens, u) == p && NeedAt(lens, p, n) == Pow2(lens[u] - 8)
    decreases n
  {
    if NeedAt(lens, p, n) == NeedAt(lens, p, n - 1) {
      u := NeedSetter(lens, p, n - 1);
    } else {
      u := n - 1;
    }
  }

  /** The table of a block has the size of the level at which the block is completed; a last block may
      not be completed at all. */
  lemma NeedLevel(lens: seq<nat>, p: nat) returns (j: nat)
    requires Fits(lens) && |lens| <= VALUE_LIMIT && Need(lens, p) > 0
    ensures 8 < j <= MAX_BITS && Need(lens, p) == Pow2(j - 8) && Block(p) < PRIMARY
    ensures Full(lens, j - 1) <= Block(p) < Full(lens, j) || Block(p) == Full(lens, MAX_BITS)
  {
    hide FirstCode, CountBelow, Need, RevCode, Shr;
    var u := NeedSetterOf(lens, p);
    j := lens[u];
    BlockOf(lens, u);
    BlockWithin(lens, u);
    if Block(p) == Full(lens, j) {
      var k := NextUsed(lens, j);
      if k != 0 {
        var v := FirstOf(lens, k);
        BlockOf(lens, v);
        LargerNeed(lens, v, p, j);
      }
    }
  }

  lemma NeedSetterOf(lens: seq<nat>, p: nat) returns (u: nat)
    requires Need(lens, p) > 0
    ensures IsLong(lens, u) && PrimaryOf(lens, u) == p && Need(lens, p) == Pow2(lens[u] - 8)
  {
    u := NeedSetter(lens, p, |lens|);
  }

  /** The first symbol of a length. */
  lemma FirstOf(lens: seq<nat>, k: nat) returns (v: nat)
    requires 8 < k <= MAX_BITS && Count(lens, k) > 0 && |lens| <= VALUE_LIMIT
    ensures IsLong(lens, v) && lens[v] == k && Code(lens, v) == FirstCode(lens, k)
  {
    v := SymbolOfRank(lens, k, 0, |lens|);
  }

  /** A code of j bits lies in the blocks up to the one where the codes of j bits end. */
  lemma BlockWithin(lens: seq<nat>, u: nat)
    requires Fits(lens) && IsLong(lens, u)
    ensures Full(lens, lens[u] - 1) <= Shr(Code(lens, u), lens[u] - 8) <= Full(lens, lens[u])
  {
    var j := lens[u];
    CodeBound(lens, u);
    CodeEndStep(lens, j - 1);
    ShrMono(2 * CodeEnd(lens, j - 1), Code(lens, u), j - 8);
    ShrMono(Code(lens, u), CodeEnd(lens, j), j - 8);
  }

  /** The table of a block is large enough for each of its codes. */
  lemma NeedOf(lens: seq<nat>, v: nat, p: nat)
    requires Fits(lens) && IsLong(lens, v) && p < PRIMARY && Block(p) == Block(PrimaryOf(lens, v))
    ensures p == PrimaryOf(lens, v) && Need(lens, p) >= Pow2(lens[v] - 8)
  {
    assert Pow2(8) == 256;
    RevInjective(p, PrimaryOf(lens, v), 8);
    NeedAtLeast(lens, v, |lens|);
  }

  /** Two codes of the same block: the table has room for the longer. */
  lemma LargerNeed(lens: seq<nat>, v: nat, p: nat, j: nat)
    requires Fits(lens) && IsLong(lens, v) && lens[v] > j > 8 && p < PRIMARY
    requires Block(p) == Block(PrimaryOf(lens, v))
    ensures Need(lens, p) > Pow2(j - 8)
  {
    NeedOf(lens, v, p);
    Pow2Mono(j - 7, lens[v] - 8);
  }

  // ----- adding up -----

  /** How many first bytes below n have their block among a..b. */
  function Hits(a: nat, b: nat, n: nat): nat {
    if n == 0 then 0 else Hits(a, b, n - 1) + if a <= Block(n - 1) < b then 1 else 0
  }

  lemma {:induction false} HitsNone(b: nat, n: nat)
    requires forall p: nat :: p < n ==> Block(p) != b
    ensures Hits(b, b + 1, n) == 0
  {
    if n > 0 {
      HitsNone(b, n - 1);
    }
  }

  lemma {:induction false} HitsOne(b: nat, n: nat)
    requires n <= PRIMARY
    ensures Hits(b, b + 1, n) <= 1
  {
    if n > 0 {
      if Block(n - 1) == b {
        forall p: nat | p < n - 1 ensures Block(p) != b {
          if Block(p) == b {
            assert Pow2(8) == 256;
            RevInjective(p, n - 1, 8);
          }
        }
        HitsNone(b, n - 1);
      } else {
        HitsOne(b, n - 1);
      }
    }
  }

  lemma {:induction false} HitsNext(a: nat, b: nat, n: nat)
    requires a <= b
    ensures Hits(a, b + 1, n) == Hits(a, b, n) + Hits(b, b + 1, n)
  {
    if n > 0 {
      HitsNext(a, b, n - 1);
    }
  }

  lemma {:induction false} HitsEmpty(a: nat, n: nat)
    ensures Hits(a, a, n) == 0
  {
    if n > 0 {
      HitsEmpty(a, n - 1);
    }
  }

  lemma {:induction false} HitsAtMost(a: nat, b: nat, n: nat)
    requires a <= b && n <= PRIMARY
    ensures Hits(a, b, n) <= b - a
    decreases b
  {
    if a == b {
      HitsEmpty(a, n);
    } else {
      HitsAtMost(a, b - 1, n);
      HitsNext(a, b - 1, n);
      HitsOne(b - 1, n);
    }
  }

  /** The entries of the tables for the first bytes below n whose blocks are completed with at most j
      bits. */
  function Entries(lens: seq<nat>, j: nat, n: nat): nat
    requires 8 <= j
  {
    if j == 8 then 0 else Entries(lens, j - 1, n) + Shl(Hits(Full(lens, j - 1), Full(lens, j), n), j - 8)
  }

  lemma {:induction false} EntriesNone(lens: seq<nat>, j: nat)
    requires 8 <= j
    ensures Entries(lens, j, 0) == 0
    decreases j
  {
    if j > 8 {
      EntriesNone(lens, j - 1);
      ShlIsTimes(0, j - 8);
    }
  }

  lemma {:induction false} EntriesGrow(lens: seq<nat>, j: nat, n: nat)
    requires 8 <= j && n > 0
    ensures Entries(lens, j, n) >= Entries(lens, j, n - 1)
    decreases j
  {
    if j > 8 {
      EntriesGrow(lens, j - 1, n);
      ShlMono(Hits(Full(lens, j - 1), Full(lens, j), n - 1), Hits(Full(lens, j - 1), Full(lens, j), n), j - 8);
    }
  }

  lemma {:induction false} EntriesOf(lens: seq<nat>, j: nat, k: nat, n: nat)
    requires 8 < k <= j && n > 0 && Full(lens, k - 1) <= Block(n - 1) < Full(lens, k)
    ensures Entries(lens, j, n) >= Entries(lens, j, n - 1) + Pow2(k - 8)
    decreases j
  {
    if j > k {
      EntriesOf(lens, j - 1, k, n);
      ShlMono(Hits(Full(lens, j - 1), Full(lens, j), n - 1), Hits(Full(lens, j - 1), Full(lens, j), n), j - 8);
    } else {
      EntriesGrow(lens, j - 1, n);
      ShlAdd(Hits(Full(lens, j - 1), Full(lens, j), n - 1), 1, j - 8);
      ShlPow2(0, j - 8);
      assert Pow2(0) == 1;
    }
  }

  lemma {:induction false} EntriesAtMost(lens: seq<nat>, j: nat)
    requires 8 <= j
    ensures Entries(lens, j, PRIMARY) <= Levels(lens, j)
    decreases j
  {
    if j > 8 {
      EntriesAtMost(lens, j - 1);
      FullGrows(lens, j);
      HitsAtMost(Full(lens, j - 1), Full(lens, j), PRIMARY);
      ShlMono(Hits(Full(lens, j - 1), Full(lens, j), PRIMARY), Full(lens, j) - Full(lens, j - 1), j - 8);
    }
  }

  /** All tables together, with at most 128 entries for a block that is not completed. */
  lemma {:induction false} SpaceByLevel(lens: seq<nat>, n: nat)
    requires Fits(lens) && |lens| <= VALUE_LIMIT && n <= PRIMARY
    ensures SpaceBelow(lens, n) <= Entries(lens, MAX_BITS, n) + 128 * Hits(Full(lens, MAX_BITS), Full(lens, MAX_BITS) + 1, n)
  {
    hide Need, Full, Entries, Fits, Block;
    if n > 0 {
      SpaceByLevel(lens, n - 1);
      EntriesGrow(lens, MAX_BITS, n);
      if Need(lens, n - 1) > 0 {
        var j := NeedLevel(lens, n - 1);
        if Block(n - 1) == Full(lens, MAX_BITS) {
          Pow2Mono(j - 8, 7);
          assert Pow2(7) == 128;
        } else {
          EntriesOf(lens, MAX_BITS, j, n);
        }
      }
    } else {
      EntriesNone(lens, MAX_BITS);
    }
  }

  /** The Kraft sum is exactly one. */
  ghost predicate Complete(lens: seq<nat>) {
    Fits(lens) && KraftSum(lens, |lens|) == Pow2(MAX_BITS)
  }

  lemma CompleteFull(lens: seq<nat>)
    requires Complete(lens)
    ensures Full(lens, MAX_BITS) == PRIMARY
  {
    CodesEnd(lens, MAX_BITS);
    UsedIsKraft(lens, |lens|);
    ShlPow2(8, 7);
    ShrShl(Pow2(8), 7);
    assert Pow2(8) == 256;
  }

  /** Any code leaves at most 248 entries unused, a complete one 120. */
  lemma SpaceBound(lens: seq<nat>)
    requires Fits(lens) && |lens| <= VALUE_LIMIT
    ensures Space(lens) <= |lens| + 248
    ensures Complete(lens) ==> Space(lens) <= |lens| + 120
  {
    hide Fits, Complete, Levels, Full, Left, SpaceBelow, Entries, LongBelow;
    var f := Full(lens, MAX_BITS);
    SpaceByLevel(lens, PRIMARY);
    EntriesAtMost(lens, MAX_BITS);
    LevelsBound(lens, MAX_BITS);
    LongAtMost(lens, MAX_BITS, |lens|);
    assert Pow2(7) == 128;
    HitsOne(f, PRIMARY);
    if Complete(lens) {
      CompleteFull(lens);
      forall p: nat | p < PRIMARY ensures Block(p) != f {
        assert Pow2(8) == 256;
        RevBound(p, 8);
      }
      HitsNone(f, PRIMARY);
    }
  }

  /** So the area is large enough for every code of up to 264 symbols, and for every complete code of
      up to 392 symbols; the literal and length alphabet has 286, that of the distances 30. */
  lemma CompleteFits(lens: seq<nat>)
    requires Fits(lens) && (|lens| <= 264 || (Complete(lens) && |lens| <= 392))
    ensures RoomFor(lens)
  {
    hide RoomFor, Space;
    SpaceBound(lens);
    SmallSpaceFits(lens);
  }
}
