/** What the numbers of the LZMA decoder stand for: the states as the kinds of the last packets, the
    contexts as what they depend on, the probabilities as fractions. */
module LzmaLaws {
  import opened Bits
  import opened MatchCopy
  import opened RangeCoder
  import opened LzmaIntegers
  import opened LzmaReader
  import opened LzmaPackets

  // ----- the twelve states -----

  /** The literals at the end of a packet sequence. */
  function Trailing(ps: seq<Packet>): (c: nat)
    ensures c <= |ps|
  {
    if ps == [] || !ps[|ps| - 1].Lit? then 0 else 1 + Trailing(ps[..|ps| - 1])
  }

  predicate AfterLit(ps: seq<Packet>, n: nat)
    requires 0 < n <= |ps|
  {
    n == 1 || ps[n - 2].Lit?
  }

  /** The state by the last packets: how many literals came last, what came before them, and whether
      that followed a literal, as the first packet does. */
  function StateAfter(ps: seq<Packet>): nat {
    var n := |ps| - Trailing(ps);
    if n == 0 then 0
    else
      var last := ps[n - 1];
      match Trailing(ps)
      case 0 =>
        if last.Match? then if AfterLit(ps, n) then 7 else 10
        else if !AfterLit(ps, n) then 11
        else if last.ShortRep? then 9 else 8
      case 1 => if last.Match? then 4 else if last.ShortRep? && AfterLit(ps, n) then 6 else 5
      case 2 => if last.Match? then 1 else if last.ShortRep? && AfterLit(ps, n) then 3 else 2
      case _ => 0
  }

  lemma TrailingNext(ps: seq<Packet>, p: Packet)
    ensures Trailing(ps + [p]) == if p.Lit? then Trailing(ps) + 1 else 0
  {
    assert (ps + [p])[..|ps|] == ps;
  }

  /** The states below seven are those in which a literal came last. */
  lemma LiteralLast(ps: seq<Packet>)
    ensures StateAfter(ps) < 12 && (StateAfter(ps) < 7 <==> ps == [] || ps[|ps| - 1].Lit?)
  {
  }

  lemma StateNext(ps: seq<Packet>, p: Packet)
    ensures StateAfter(ps + [p]) == if p.Lit? then AfterLiteral(StateAfter(ps)) else MatchState(StateAfter(ps), p)
  {
    hide Trailing;
    TrailingNext(ps, p);
    LiteralLast(ps);
    var n := |ps| - Trailing(ps);
    if p.Lit? {
      LitNext(ps, p);
    } else {
      assert Trailing(ps + [p]) == 0;
      assert (ps + [p])[|ps|] == p;
      assert AfterLit(ps + [p], |ps| + 1) <==> StateAfter(ps) < 7;
    }
  }

  lemma LitNext(ps: seq<Packet>, p: Packet)
    requires p.Lit?
    ensures StateAfter(ps + [p]) == AfterLiteral(StateAfter(ps))
  {
    hide Trailing;
    TrailingNext(ps, p);
    var n := |ps| - Trailing(ps);
    if n > 0 {
      assert (ps + [p])[n - 1] == ps[n - 1];
      assert AfterLit(ps + [p], n) == AfterLit(ps, n);
    }
  }

  /** Packets one after the other. */
  lemma {:induction false} ApplyLast(s: State, ps: seq<Packet>, p: Packet)
    requires AllApply(s, ps + [p])
    ensures AllApply(s, ps) && Applies(ApplyAll(s, ps), p)
    ensures ApplyAll(s, ps + [p]) == Apply(ApplyAll(s, ps), p)
    decreases |ps|
  {
    hide Apply, Applies;
    if ps == [] {
      assert ps + [p] == [p] && [p][1..] == [];
    } else {
      assert (ps + [p])[1..] == ps[1..] + [p];
      ApplyLast(Apply(s, ps[0]), ps[1..], p);
    }
  }

  /** From a state reset on, the state is what the last packets make it. */
  lemma {:induction false} StateLaw(s: State, ps: seq<Packet>)
    requires s.Valid() && s.lstate == 0 && AllApply(s, ps)
    ensures ApplyAll(s, ps).lstate == StateAfter(ps)
    decreases |ps|
  {
    hide StateAfter, AllApply, ApplyAll;
    if ps == [] {
      NoPackets(s);
    } else {
      var front, p := ps[..|ps| - 1], ps[|ps| - 1];
      assert ps == front + [p];
      ApplyLast(s, front, p);
      StateLaw(s, front);
      StateNext(front, p);
    }
  }

  lemma NoPackets(s: State)
    ensures AllApply(s, []) && ApplyAll(s, []) == s && StateAfter([]) == 0
  {
  }

  // ----- probabilities -----

  /** The initial probability splits a range into halves, up to what the division drops. */
  lemma InitIsHalf(range: nat)
    ensures 0 <= range - 2 * Bound(range, PROB_INIT) < 2048
  {
  }

  /** A probability moves a thirty-second of the way to its end of the scale, and the bounds are where
      it comes to rest. */
  lemma AdaptLaw(p: nat)
    requires p <= 2048
    ensures 0 <= (2048 - p) - 32 * (Adapt(p, 0) - p) < 32 && 0 <= p - 32 * (p - Adapt(p, 1)) < 32
    ensures Adapt(2016, 0) == 2017 == Adapt(2017, 0) && Adapt(32, 1) == 31 == Adapt(31, 1)
    ensures Adapt(1024, 0) == 1056 && Adapt(1024, 1) == 992
  {
  }

  /** A range is scaled exactly when its top byte is clear, which is when scaling keeps it in 32 bits. */
  lemma ScaleLaw(input: seq<byte>, d: Decoder)
    requires d.range < 0x1_0000_0000 && d.off < |input|
    ensures var n := Normalize(input, d);
      if 256 * d.range < 0x1_0000_0000 then n.range == 256 * d.range && n.off == d.off + 1
      else n == d
  {
  }

  /** The first bit of a chunk: 1 exactly when the four code bytes are 7f fffc 00 or more. */
  lemma FirstBit(input: seq<byte>, off: nat, probs: seq<nat>, ctx: nat)
    requires off + 5 <= |input| && ctx < |probs| && probs[ctx] == 1024
    ensures var c := ((256 * ByteOf(input, off + 1) + ByteOf(input, off + 2)) * 256 + ByteOf(input, off + 3)) * 256 + ByteOf(input, off + 4);
      var (d, bit) := DecodeBit(input, Start(input, off, probs), ctx);
      && bit == (if c >= 0x7fff_fc00 then 1 else 0)
      && d.range == (if bit == 1 then 0x8000_03ff else 0x7fff_fc00)
      && d.code == (if bit == 1 then c - 0x7fff_fc00 else c)
      && d.probs == probs[ctx := if bit == 1 then 992 else 1056]
  {
    FourDigits(input, off + 1);
  }

  lemma FourDigits(input: seq<byte>, i: nat)
    requires i + 4 <= |input|
    ensures Digits(input, i, 4) == ((256 * ByteOf(input, i) + ByteOf(input, i + 1)) * 256 + ByteOf(input, i + 2)) * 256 + ByteOf(input, i + 3)
  {
    assert Digits(input, i, 1) == ByteOf(input, i);
    assert Digits(input, i, 2) == 256 * ByteOf(input, i) + ByteOf(input, i + 1);
  }

  // ----- distances -----

  /** Slots follow each other without a gap from 0 to 2^32, and the two slots of a size have half as much
      again to the power of two they begin with. */
  lemma SlotLaw(slot: nat)
    requires slot < 64
    ensures SlotDistance(0, 0) == 0
    ensures slot < 63 ==> SlotDistance(slot + 1, 0) == SlotDistance(slot, Pow2(LowBits(slot)) - 1) + 1
    ensures slot == 63 ==> SlotDistance(slot, Pow2(LowBits(slot)) - 1) == 0xffff_ffff
  {
    hide Pow2, Shl;
    if slot < 4 {
      FourStart();
    } else {
      SlotStart(slot, Pow2(LowBits(slot)));
      if slot < 63 {
        SlotStart(slot + 1, Pow2(LowBits(slot + 1)));
        NextPower(LowBits(slot));
      } else {
        PowThirty();
      }
    }
  }

  lemma FourStart()
    ensures Pow2(0) == 1 && SlotDistance(4, 0) == 4
  {
  }

  /** Twice or three times a power of two. */
  lemma SlotStart(slot: nat, p: nat)
    requires slot >= 4 && p == Pow2(LowBits(slot))
    ensures forall low: nat :: SlotDistance(slot, low) == (if slot % 2 == 0 then p + p else p + p + p) + low
  {
    ShlIsTimes(2 + slot % 2, LowBits(slot));
  }

  lemma NextPower(n: nat)
    ensures Pow2(n + 1) == 2 * Pow2(n)
  {
  }

  lemma PowThirty()
    ensures Pow2(30) == 0x4000_0000
  {
    Pow2Words();
  }

  // ----- copies -----

  /** Every byte a match adds is one that stands behind the start of the dictionary and before it, as far
      back as the distance that is now the latest says. */
  lemma CopiesFromDictionary(s: State, p: Packet, k: nat)
    requires Applies(s, p) && !p.Lit? && |s.out| <= k < |Apply(s, p).out|
    ensures var s' := Apply(s, p);
      && s.dict <= k - (s'.dist[0] + 1) < k && s'.out[k] == s'.out[k - (s'.dist[0] + 1)]
      && s'.out[..|s.out|] == s.out && |s'.out| == |s.out| + MatchLen(p)
  {
    RepeatAt(s.out, MatchDist(s.dist, p)[0] + 1, MatchLen(p), k);
  }

  // ----- contexts -----

  /** The parts of the probability array. */
  lemma Layout()
    ensures [IS_MATCH, IS_REP, IS_REP0, IS_REP1, IS_REP2, IS_REP0_LONG] == [0, 192, 204, 216, 228, 240]
    ensures [DIST_SLOT, DIST_SPECIAL, DIST_ALIGN, MATCH_LEN, REP_LEN, LITERAL] == [432, 688, 802, 818, 1332, 1846]
  {
  }

  /** Whether a packet is a match is predicted by the state and the low bits of the position, and by
      nothing else. */
  lemma MatchContexts(s: State, t: State, props: Props)
    requires s.Valid() && t.Valid() && props.Valid()
    ensures IsMatchContext(s, props) == IsMatchContext(t, props) <==>
      s.lstate == t.lstate && Low(|s.out| - s.dict, props.pb) == Low(|t.out| - t.dict, props.pb)
  {
    hide Low;
    PosStateBound(|s.out| - s.dict, props);
    PosStateBound(|t.out| - t.dict, props);
  }

  function Previous(s: State): nat {
    if s.out == [] then 0 else s.out[|s.out| - 1]
  }

  /** Two literals are coded in the same contexts exactly when the low bits of their positions and the
      high bits of the bytes before them agree. */
  lemma LiteralContexts(s: State, t: State, props: Props)
    requires s.Valid() && t.Valid() && props.Valid()
    ensures LiteralBase(s, props) == LiteralBase(t, props) <==>
      && Low(|s.out| - s.dict, props.lp) == Low(|t.out| - t.dict, props.lp)
      && Shr(Previous(s), 8 - props.lc) == Shr(Previous(t), 8 - props.lc)
  {
    var a, b := Shr(Previous(s), 8 - props.lc), Shr(Previous(t), 8 - props.lc);
    var x, y := Low(|s.out| - s.dict, props.lp), Low(|t.out| - t.dict, props.lp);
    HighBits(Previous(s), props.lc);
    HighBits(Previous(t), props.lc);
    Join(a, x, props.lc);
    Join(b, y, props.lc);
  }

  lemma HighBits(prev: nat, lc: nat)
    requires prev < 256 && lc <= 4
    ensures Shr(prev, 8 - lc) < Pow2(lc)
  {
    assert Pow2(8) == 256;
    ShrBound(prev, 8 - lc, lc);
  }

  /** The bit trees of the special distances lie end to end from the first context behind the slots to
      that of the aligned bits. */
  lemma SpecialTrees(slot: nat)
    requires 4 <= slot < 14
    ensures SpecialBase(4) + 1 == 688
    ensures slot < 13 ==> SpecialBase(slot + 1) == SpecialBase(slot) + (Pow2(LowBits(slot)) - 1)
    ensures slot == 13 ==> SpecialBase(slot) + Pow2(LowBits(slot)) == 802
  {
    hide Pow2, Shl;
    TreeStart(slot, Pow2(LowBits(slot)));
    if slot < 13 {
      TreeStart(slot + 1, Pow2(LowBits(slot + 1)));
      NextPower(LowBits(slot));
    }
    SmallTrees();
  }

  lemma TreeStart(slot: nat, p: nat)
    requires 4 <= slot < 14 && p == Pow2(LowBits(slot))
    ensures SpecialBase(slot) + slot == 687 + if slot % 2 == 0 then p + p else p + p + p
  {
    hide Shl, Pow2;
    if slot % 2 == 0 {
      ShlIsTimes(2, LowBits(slot));
    } else {
      ShlIsTimes(3, LowBits(slot));
    }
  }

  lemma SmallTrees()
    ensures SpecialBase(4) == 687 && Pow2(LowBits(13)) == 32 && SpecialBase(13) == 770
  {
    TreeStart(4, 2);
    TreeStart(13, 32);
  }

  /** A byte 0x62 predicted to be 0x61: as long as the bits agree the predicted bit picks one of two
      trees; after the seventh bit, which differs, a third is used. */
  lemma MatchedExample()
    ensures MatchedMessage(0, 8, true, 0x61, 0x62)
         == [Coded(257, 0), Coded(514, 1), Coded(517, 1), Coded(267, 0), Coded(278, 0), Coded(300, 0), Coded(344, 1), Coded(177, 0)]
  {
    ByteBits();
    hide Bit, Shr, Pow2;
    var m: Message := [];
    m := MatchedNext(0x61, 0x62, 1, false, 1, 0, 177, m);
    m := MatchedNext(0x61, 0x62, 2, true, 0, 1, 344, m);
    m := MatchedNext(0x61, 0x62, 3, true, 0, 0, 300, m);
    m := MatchedNext(0x61, 0x62, 4, true, 0, 0, 278, m);
    m := MatchedNext(0x61, 0x62, 5, true, 0, 0, 267, m);
    m := MatchedNext(0x61, 0x62, 6, true, 1, 1, 517, m);
    m := MatchedNext(0x61, 0x62, 7, true, 1, 1, 514, m);
    m := MatchedNext(0x61, 0x62, 8, true, 0, 0, 257, m);
  }

  /** 0x61 is 01100001, 0x62 is 01100010. */
  lemma ByteBits()
    ensures Bit(0x61, 0) && !Bit(0x61, 1) && !Bit(0x61, 2) && !Bit(0x61, 3)
    ensures !Bit(0x61, 4) && Bit(0x61, 5) && Bit(0x61, 6) && !Bit(0x61, 7)
    ensures !Bit(0x62, 0) && Bit(0x62, 1) && !Bit(0x62, 2) && !Bit(0x62, 3)
    ensures !Bit(0x62, 4) && Bit(0x62, 5) && Bit(0x62, 6) && !Bit(0x62, 7)
    ensures Shr(0x62, 1) == 49 && Shr(0x62, 2) == 24 && Shr(0x62, 3) == 12 && Shr(0x62, 4) == 6
    ensures Shr(0x62, 5) == 3 && Shr(0x62, 6) == 1 && Shr(0x62, 7) == 0 && Shr(0x62, 8) == 0
    ensures Pow2(0) == 1 && Pow2(1) == 2 && Pow2(2) == 4 && Pow2(3) == 8
    ensures Pow2(4) == 16 && Pow2(5) == 32 && Pow2(6) == 64 && Pow2(7) == 128
  {
  }

  lemma MatchedNext(pred: nat, v: nat, k: nat, same: bool, guess: nat, bit: nat, ctx: nat, rest: Message)
    returns (m: Message)
    requires 0 < k <= 8
    requires bit == (if Bit(v, k - 1) then 1 else 0) && guess == (if Bit(pred, k - 1) then 1 else 0)
    requires ctx == (if !same then 0 else 0x100 + 0x100 * guess) + Pow2(8 - k) + Shr(v, k)
    requires rest == MatchedMessage(0, k - 1, same && bit == guess, pred, v)
    ensures m == [Coded(ctx, bit)] + rest == MatchedMessage(0, k, same, pred, v)
  {
    hide Bit, Shr, Pow2;
    m := [Coded(ctx, bit)] + rest;
  }

  // ----- packets bit by bit -----

  /** The four repeats and their short form, in state 0 at position 0: 0 and 1 for the latest, 10, 110 and
      111 for the others. */
  lemma RepeatBits(len: nat)
    requires LengthOk(len)
    ensures RepMessage(0, 0, ShortRep) == [Coded(204, 0), Coded(240, 0)] && RepMessage(0, 0, Rep(0, len)) == [Coded(204, 0), Coded(240, 1)]
    ensures RepMessage(0, 0, Rep(1, len)) == [Coded(204, 1), Coded(216, 0)]
    ensures RepMessage(0, 0, Rep(2, len)) == [Coded(204, 1), Coded(216, 1), Coded(228, 0)]
    ensures RepMessage(0, 0, Rep(3, len)) == [Coded(204, 1), Coded(216, 1), Coded(228, 1)]
  {
  }

  lemma MsbOne(base: nat, sym: nat, k: nat, v: nat, bit: nat, rest: Message)
    requires k > 0 && bit == (if Bit(v, k - 1) then 1 else 0) && MsbMessage(base, 2 * sym + bit, k - 1, v) == rest
    ensures MsbMessage(base, sym, k, v) == [Coded(base + sym, bit)] + rest
  {
  }

  /** Three bits in a tree at base. */
  lemma ThreeBits(base: nat, v: nat, x: nat, y: nat, z: nat)
    requires x < 2 && y < 2 && z < 2 && v == 4 * x + 2 * y + z
    ensures MsbMessage(base, 1, 3, v) == [Coded(base + 1, x), Coded(base + 2 + x, y), Coded(base + 4 + 2 * x + y, z)]
  {
    assert v / 2 == 2 * x + y && v / 2 / 2 == x;
    assert Shr(v, 0) == v && Shr(v / 2 / 2, 0) == v / 2 / 2;
    assert Shr(v, 1) == v / 2 && Shr(v / 2, 1) == v / 2 / 2;
    MsbOne(base, 4 + 2 * x + y, 1, v, z, []);
    MsbOne(base, 2 + x, 2, v, y, [Coded(base + 4 + 2 * x + y, z)]);
    MsbOne(base, 1, 3, v, x, [Coded(base + 2 + x, y), Coded(base + 4 + 2 * x + y, z)]);
  }

  /** Lengths 2 to 9 and 10 to 17 have three bits in the tree of the position state, longer ones eight
      bits in one tree for all. */
  lemma LengthsBitByBit()
    ensures LenMessage(818, 1, 9) == [Coded(818, 0), Coded(829, 1), Coded(831, 1), Coded(835, 1)]
    ensures LenMessage(818, 1, 10) == [Coded(818, 1), Coded(819, 0), Coded(957, 0), Coded(958, 0), Coded(960, 0)]
    ensures LenMessage(818, 15, 18) == [Coded(818, 1), Coded(819, 1)] + MsbMessage(1076, 1, 8, 0)
    ensures LenMessage(818, 15, 273) == [Coded(818, 1), Coded(819, 1)] + MsbMessage(1076, 1, 8, 255)
  {
    hide MsbMessage;
    ThreeBits(828, 7, 1, 1, 1);
    ThreeBits(956, 0, 0, 0, 0);
  }

  lemma LsbOne(base: nat, sym: nat, k: nat, v: nat, bit: nat, rest: Message)
    requires k > 0 && bit == v % 2 && LsbMessage(base, 2 * sym + bit, k - 1, v / 2) == rest
    ensures LsbMessage(base, sym, k, v) == [Coded(base + sym, bit)] + rest
  {
  }

  /** The slot is predicted by the length, up to 5.  Slot 10 has four bits of its own, the lowest first. */
  lemma MiddleDistance()
    ensures DistMessage(2, 10, 6) == MsbMessage(432, 1, 6, 10) + [Coded(710, 0), Coded(711, 1), Coded(714, 1), Coded(720, 0)]
    ensures DistMessage(4, 0, 0) == MsbMessage(560, 1, 6, 0) && DistMessage(273, 3, 0) == MsbMessage(624, 1, 6, 3)
    ensures SlotDistance(10, 6) == 38
  {
    hide MsbMessage, SpecialBase;
    TreeStart(10, Power16());
    LsbOne(709, 11, 1, 0, 0, []);
    LsbOne(709, 5, 2, 1, 1, [Coded(720, 0)]);
    LsbOne(709, 2, 3, 3, 1, [Coded(714, 1), Coded(720, 0)]);
    LsbOne(709, 1, 4, 6, 0, [Coded(711, 1), Coded(714, 1), Coded(720, 0)]);
  }

  function Power16(): (p: nat)
    ensures p == Pow2(4)
  {
    16
  }

  /** Slot 14 has two equiprobable bits, the highest first, and then the four aligned bits, the lowest
      first. */
  lemma FarDistance()
    ensures DistMessage(2, 14, 45) == MsbMessage(432, 1, 6, 14)
      + [Direct(1), Direct(0), Coded(803, 1), Coded(805, 0), Coded(808, 1), Coded(815, 1)]
    ensures SlotDistance(14, 45) == 173
  {
    hide MsbMessage;
    LsbOne(802, 13, 1, 1, 1, []);
    LsbOne(802, 6, 2, 3, 1, [Coded(815, 1)]);
    LsbOne(802, 3, 3, 6, 0, [Coded(808, 1), Coded(815, 1)]);
    LsbOne(802, 1, 4, 13, 1, [Coded(805, 0), Coded(808, 1), Coded(815, 1)]);
    assert LsbMessage(802, 1, 4, 45) == LsbMessage(802, 1, 4, 13);
    assert DirectMessage(2, 2) == [Direct(1), Direct(0)];
  }
}
