/** A code that meets the Kraft inequality and is refused all the same, for want of room for its
    secondary tables. */
module OverfullTable {
  import opened Bits
  import opened CanonicalCode
  import opened HiddenSymbol
  import opened HuffmanTable
  import opened TableLayout
  import opened TableSpace
  import opened CompleteCodes
  import opened TableBuilder

  /** 259 symbols of nine bits, one each of 10 to 14, and three of 15: 267 in all. */
  function Overfull(): (lens: seq<nat>)
    ensures |lens| == 267
  {
    seq(267, i => if i < 259 then 9 else if i < 264 then i - 249 else 15)
  }

  lemma OverfullSum(lens: seq<nat>)
    requires lens == Overfull()
    ensures Fits(lens)
  {
    assert Pow2(0) == 1 && Pow2(1) == 2 && Pow2(2) == 4 && Pow2(3) == 8 && Pow2(4) == 16 && Pow2(5) == 32;
    assert Pow2(6) == 64 && Pow2(15) == 0x8000;
    KraftRun(lens, 0, 259, 9, 64);
    KraftRun(lens, 259, 260, 10, 32);
    KraftRun(lens, 260, 261, 11, 16);
    KraftRun(lens, 261, 262, 12, 8);
    KraftRun(lens, 262, 263, 13, 4);
    KraftRun(lens, 263, 264, 14, 2);
    KraftRun(lens, 264, 267, 15, 1);
  }

  lemma OverfullCount(lens: seq<nat>, j: nat)
    requires lens == Overfull()
    ensures Count(lens, j) == if j == 9 then 259 else if 10 <= j < 15 then 1 else if j == 15 then 3 else 0
  {
    CountRun(lens, 0, 259, 9, j);
    CountRun(lens, 259, 260, 10, j);
    CountRun(lens, 260, 261, 11, j);
    CountRun(lens, 261, 262, 12, j);
    CountRun(lens, 262, 263, 13, j);
    CountRun(lens, 263, 264, 14, j);
    CountRun(lens, 264, 267, 15, j);
  }

  lemma {:induction false} NoShortCodes(lens: seq<nat>, j: nat)
    requires lens == Overfull() && j <= 9
    ensures FirstCode(lens, j) == 0
  {
    if j > 0 {
      NoShortCodes(lens, j - 1);
      OverfullCount(lens, j - 1);
    }
  }

  lemma OverfullFirst(lens: seq<nat>)
    requires lens == Overfull()
    ensures FirstCode(lens, 9) == 0 && CodeEnd(lens, 9) == 259 && FirstCode(lens, 15) == 16638
  {
    NoShortCodes(lens, 9);
    OverfullCount(lens, 9);
    OverfullCount(lens, 10);
    OverfullCount(lens, 11);
    OverfullCount(lens, 12);
    OverfullCount(lens, 13);
    OverfullCount(lens, 14);
    hide Count;
    assert FirstCode(lens, 10) == 518;
    assert FirstCode(lens, 11) == 1038;
    assert FirstCode(lens, 12) == 2078;
    assert FirstCode(lens, 13) == 4158;
    assert FirstCode(lens, 14) == 8318;
  }

  /** A code of each block in use: the last two blocks have codes of 15 bits. */
  lemma CodeInBlock(lens: seq<nat>, b: nat) returns (v: nat)
    requires lens == Overfull() && b < 131
    ensures IsLong(lens, v) && Shr(Code(lens, v), lens[v] - 8) == b
    ensures lens[v] == if b < 129 then 9 else 15
  {
    OverfullFirst(lens);
    if b < 129 {
      v := 2 * b;
      CountRun(lens, 0, v, 9, 9);
      assert Shr(2 * b, 1) == b;
    } else {
      v := 264 + 2 * (b - 129);
      RankOfLast(lens, v);
      ShiftMeaning(Code(lens, v), 7);
      assert Pow2(7) == 128;
    }
  }

  lemma RankOfLast(lens: seq<nat>, v: nat)
    requires lens == Overfull() && 264 <= v < 267
    ensures CountBelow(lens, 15, v) == v - 264
  {
    CountRun(lens, 0, 259, 9, 15);
    CountRun(lens, 259, 260, 10, 15);
    CountRun(lens, 260, 261, 11, 15);
    CountRun(lens, 261, 262, 12, 15);
    CountRun(lens, 262, 263, 13, 15);
    CountRun(lens, 263, 264, 14, 15);
    CountRun(lens, 264, v, 15, 15);
  }

  lemma OverfullNeed(lens: seq<nat>, p: nat)
    requires lens == Overfull() && p < PRIMARY && Block(p) < 131
    ensures Need(lens, p) >= if Block(p) < 129 then 2 else 128
  {
    OverfullSum(lens);
    var v := CodeInBlock(lens, Block(p));
    BlockOf(lens, v);
    NeedOf(lens, v, p);
    assert Pow2(1) == 2 && Pow2(7) == 128;
  }

  lemma {:induction false} OverfullSpace(lens: seq<nat>, n: nat)
    requires lens == Overfull() && n <= PRIMARY
    ensures SpaceBelow(lens, n) >= 2 * Hits(0, 129, n) + 128 * Hits(129, 131, n)
  {
    hide Need, Block, Overfull;
    if n > 0 {
      OverfullSpace(lens, n - 1);
      if Block(n - 1) < 131 {
        OverfullNeed(lens, n - 1);
      }
    }
  }

  lemma {:induction false} HitsSome(b: nat, p: nat, n: nat)
    requires p < n && Block(p) == b
    ensures Hits(b, b + 1, n) >= 1
  {
    if p < n - 1 {
      HitsSome(b, p, n - 1);
    }
  }

  /** Every block has its first byte. */
  lemma {:induction false} HitsAll(a: nat, b: nat)
    requires a <= b <= PRIMARY
    ensures Hits(a, b, PRIMARY) == b - a
    decreases b
  {
    hide Block;
    if a == b {
      HitsEmpty(a, PRIMARY);
    } else {
      HitsAll(a, b - 1);
      HitsNext(a, b - 1, PRIMARY);
      HitsOne(b - 1, PRIMARY);
      var p := FirstByte(b - 1);
      HitsSome(b - 1, p, PRIMARY);
    }
  }

  lemma FirstByte(b: nat) returns (p: nat)
    requires b < PRIMARY
    ensures p < PRIMARY && Block(p) == b
  {
    assert Pow2(8) == 256;
    p := Rev(b, 8);
    RevBound(b, 8);
    RevRev(b, 8);
  }

  /** The smallest table has two entries. */
  lemma SmallestTable(lens: seq<nat>)
    requires lens == Overfull()
    ensures LeastBelow(lens, PRIMARY) <= 2
  {
    OverfullSum(lens);
    var p := FirstByte(0);
    OverfullNeed(lens, p);
    forall u: nat | IsLong(lens, u) && PrimaryOf(lens, u) == p ensures lens[u] <= 9 {
      if lens[u] > 9 {
        LongerBlocks(lens, u);
      }
    }
    NeedAtMost(lens, p, 9, |lens|);
    assert Pow2(1) == 2;
    LeastIsLeast(lens, p, PRIMARY);
  }

  lemma LongerBlocks(lens: seq<nat>, u: nat)
    requires lens == Overfull() && Fits(lens) && IsLong(lens, u) && lens[u] > 9
    ensures Block(PrimaryOf(lens, u)) >= 129
  {
    OverfullFirst(lens);
    BlockOf(lens, u);
    BlockWithin(lens, u);
    FullMono(lens, 9, lens[u] - 1);
    assert Full(lens, 9) == 129 by {
      assert Shr(259, 1) == 129;
    }
  }

  lemma {:induction false} FullMono(lens: seq<nat>, i: nat, j: nat)
    requires 8 < i <= j
    ensures Full(lens, i) <= Full(lens, j)
    decreases j
  {
    if i < j {
      FullMono(lens, i, j - 1);
      FullGrows(lens, j);
    }
  }

  /** The secondary tables would take 514 entries; the last one would begin at offset 512. */
  lemma NoRoomForOverfull()
    ensures Fits(Overfull()) && !RoomFor(Overfull())
  {
    hide Overfull, SpaceBelow, LeastBelow, Hits;
    OverfullSum(Overfull());
    OverfullSpace(Overfull(), PRIMARY);
    HitsAll(0, 129);
    HitsAll(129, 131);
    SmallestTable(Overfull());
  }

  /** The builder refuses these lengths. */
  method RefuseOverfull(table: array<nat>) returns (ok: bool)
    requires table.Length == TABLE_SIZE
    modifies table
    ensures !ok
  {
    hide Fits, RoomFor;
    NoRoomForOverfull();
    ok := InflateTable(Overfull(), table);
  }
}
