/** The decode loop of elf_uncompress_lzma_block for one LZMA chunk. */
module LzmaChunk {
  import opened Bits
  import opened MatchCopy
  import opened RangeCoder
  import opened LzmaIntegers
  import opened LzmaReader
  import opened LzmaPackets

  /** elf_lzma_len: in step with an encoder that sends len, it returns len. */
  method ReadLen(rd: RangeDecoder, base: nat, posState: nat, ghost len: nat, ghost rest: Message,
                 ghost end: Finish) returns (r: nat)
    requires rd.Valid() && posState < POS_STATES && LengthOk(len) && base + LEN_SIZE <= LITERAL
    modifies rd, rd.probs
    ensures rd.Valid() && LengthOk(r)
    ensures old(InStep(rd.input, rd.State(), LenMessage(base, posState, len) + rest, end)) ==>
              r == len && InStep(rd.input, rd.State(), rest, end)
  {
    hide InStep, MsbMessage, LsbMessage, DirectMessage, DecodeMsb, DecodeLsb, Shl, Pow2, Low;
    TreeSizes();
    ghost var choice := if len < 10 then 0 else 1;
    ghost var tail := if len < 10 then MsbMessage(base + 2 + 8 * posState, 1, 3, len - 2) else LongLenMessage(base,
                                                  posState, len);
    assert LenMessage(base, posState, len) + rest == [Coded(base, choice)] + (tail + rest);
    var bit := rd.NextBit(base, choice, tail + rest, end);
    if bit == 0 {
      r := rd.ReadInteger(base + 2 + 8 * posState, 3, len - 2, rest, end);
      LowIsSmall(len - 2, 3);
      r := 2 + r;
    } else {
      r := ReadLongLen(rd, base, posState, if len < 10 then 10 else len, rest, end);
    }
  }

  method ReadLongLen(rd: RangeDecoder, base: nat, posState: nat, ghost len: nat, ghost rest: Message,
                     ghost end: Finish) returns (r: nat)
    requires rd.Valid() && posState < POS_STATES && 10 <= len <= 273 && base + LEN_SIZE <= LITERAL
    modifies rd, rd.probs
    ensures rd.Valid() && LengthOk(r)
    ensures old(InStep(rd.input, rd.State(), LongLenMessage(base, posState, len) + rest, end)) ==>
              r == len && InStep(rd.input, rd.State(), rest, end)
  {
    hide InStep, MsbMessage, LsbMessage, DirectMessage, DecodeMsb, DecodeLsb, Shl, Pow2, Low;
    TreeSizes();
    ghost var choice, v := if len < 18 then 0 else 1, if len < 18 then len - 10 else len - 18;
    ghost var tail := if len < 18 then MsbMessage(base + 2 + 8 * POS_STATES + 8 * posState, 1, 3, v)
                      else MsbMessage(base + 2 + 16 * POS_STATES, 1, 8, v);
    assert LongLenMessage(base, posState, len) + rest == [Coded(base + 1, choice)] + (tail + rest);
    var bit := rd.NextBit(base + 1, choice, tail + rest, end);
    if bit == 0 {
      r := rd.ReadInteger(base + 2 + 8 * POS_STATES + 8 * posState, 3, v, rest, end);
      LowIsSmall(v, 3);
      r := 10 + r;
    } else {
      r := rd.ReadInteger(base + 2 + 16 * POS_STATES, 8, v, rest, end);
      LowIsSmall(v, 8);
      r := 18 + r;
    }
  }

  lemma LowIsSmall(x: nat, n: nat)
    ensures x < Pow2(n) ==> Low(x, n) == x
  {
    if x < Pow2(n) {
      LowSmall(x, n);
    }
  }

  /** The loop over the equiprobable bits of a distance, appended to dist0. */
  method ReadDirectBits(rd: RangeDecoder, dist0: nat, k: nat, ghost v: nat, ghost rest: Message,
                        ghost end: Finish) returns (r: nat)
    requires rd.Valid()
    modifies rd
    ensures rd.Valid()
    ensures old(InStep(rd.input, rd.State(), DirectMessage(k, v) + rest, end)) ==>
              r == Shl(dist0, k) + Low(v, k) && InStep(rd.input, rd.State(), rest, end)
  {
    hide InStep;
    ghost var carried := InStep(rd.input, rd.State(), DirectMessage(k, v) + rest, end);
    r := dist0;
    var i: nat := 0;
    assert Low(v, k) == Shl(0, k) + Low(v, k) by { ShlOne(k); }
    while i < k
      invariant i <= k && rd.Valid()
      invariant carried ==> Shl(r, k - i) + Low(v, k - i) == Shl(dist0, k) + Low(v, k)
                            && InStep(rd.input, rd.State(), DirectMessage(k - i, v) + rest, end)
    {
      ghost var n := k - i - 1;
      ghost var sent := if Bit(v, n) then 1 else 0;
      assert DirectMessage(n + 1, v) + rest == [Direct(sent)] + (DirectMessage(n, v) + rest);
      var bit := rd.NextDirect(sent, DirectMessage(n, v) + rest, end);
      DirectStep(r, v, n, bit);
      r := 2 * r + bit;
      i := i + 1;
    }
    assert DirectMessage(0, v) + rest == rest;
  }

  lemma DirectStep(r: nat, v: nat, n: nat, bit: nat)
    ensures bit == (if Bit(v, n) then 1 else 0) ==> Shl(2 * r + bit, n) + Low(v, n) == Shl(r, n + 1) + Low(v, n + 1)
  {
    LowTop(v, n);
    ShlAdd(2 * r, bit, n);
    ShlTwice(r, n);
    ShlOne(n);
  }

  /** The distance of a match: the slot, then the bits below it. */
  method ReadDist(rd: RangeDecoder, len: nat, ghost slot: nat, ghost low: nat, ghost rest: Message,
                  ghost end: Finish) returns (r: nat)
    requires rd.Valid() && LengthOk(len) && SlotOk(slot, low)
    modifies rd, rd.probs
    ensures rd.Valid()
    ensures old(InStep(rd.input, rd.State(), DistMessage(len, slot, low) + rest, end)) ==>
              r == SlotDistance(slot, low) && InStep(rd.input, rd.State(), rest, end)
  {
    hide InStep, MsbMessage, LsbMessage, DirectMessage, DecodeMsb, DecodeLsb, Shl, Pow2, Low;
    TreeSizes();
    ghost var carried := InStep(rd.input, rd.State(), DistMessage(len, slot, low) + rest, end);
    ghost var slots := MsbMessage(DIST_SLOT + 64 * DistState(len), 1, 6, slot);
    assert DistMessage(len, slot, low) + rest == slots + (LowMessage(slot, low) + rest);
    var s := rd.ReadInteger(DIST_SLOT + 64 * DistState(len), 6, slot, LowMessage(slot, low) + rest, end);
    LowIsSmall(slot, 6);
    if s < 4 {
      assert carried ==> LowMessage(slot, low) + rest == rest;
      return s;
    }
    r := ReadLow(rd, s, low, rest, end);
  }

  /** The bits below a slot that has any. */
  method ReadLow(rd: RangeDecoder, slot: nat, ghost low: nat, ghost rest: Message, ghost end: Finish) returns (r: nat)
    requires rd.Valid() && 4 <= slot < 64
    modifies rd, rd.probs
    ensures rd.Valid()
    ensures low < Pow2(LowBits(slot)) && old(InStep(rd.input, rd.State(), LowMessage(slot, low) + rest, end)) ==>
              r == SlotDistance(slot, low) && InStep(rd.input, rd.State(), rest, end)
  {
    hide InStep, MsbMessage, LsbMessage, DirectMessage, DecodeMsb, DecodeLsb, Shl, Pow2, Low;
    TreeSizes();
    var limit := slot / 2 - 1;
    LowIsSmall(low, limit);
    if slot < 14 {
      SpecialDistance(slot);
      var x := rd.ReadReverse(SpecialBase(slot), limit, low, rest, end);
      r := Shl(2 + slot % 2, limit) + x;
    } else {
      r := ReadAligned(rd, 2 + slot % 2, limit, low, rest, end);
    }
  }

  /** The bits below a slot from 14 on: equiprobable bits, then four aligned bits. */
  method ReadAligned(rd: RangeDecoder, top: nat, limit: nat, ghost low: nat, ghost rest: Message,
                     ghost end: Finish) returns (r: nat)
    requires rd.Valid() && limit >= 4
    modifies rd, rd.probs
    ensures rd.Valid()
    ensures low < Pow2(limit)
            && old(InStep(rd.input, rd.State(), DirectMessage(limit - 4, Shr(low, 4)) + LsbMessage(DIST_ALIGN, 1, 4, low) + rest, end)) ==>
              r == Shl(top, limit) + low && InStep(rd.input, rd.State(), rest, end)
  {
    hide InStep, MsbMessage, LsbMessage, DirectMessage, DecodeMsb, DecodeLsb, Shl, Pow2, Low;
    TreeSizes();
    ghost var direct, align := DirectMessage(limit - 4, Shr(low, 4)), LsbMessage(DIST_ALIGN, 1, 4, low);
    assert direct + align + rest == direct + (align + rest);
    r := ReadDirectBits(rd, top, limit - 4, Shr(low, 4), align + rest, end);
    var x := rd.ReadReverse(DIST_ALIGN, 4, low, rest, end);
    LowHighBits(top, low, limit);
    r := Shl(r, 4) + x;
  }

  /** The bits below a slot are its direct bits followed by four aligned bits. */
  lemma LowHighBits(top: nat, low: nat, limit: nat)
    requires limit >= 4
    ensures low < Pow2(limit) ==>
              Shl(Shl(top, limit - 4) + Low(Shr(low, 4), limit - 4), 4) + Low(low, 4) == Shl(top, limit) + low
  {
    hide Shl, Shr, Low, Pow2;
    if low < Pow2(limit) {
      ShlAdd(Shl(top, limit - 4), Low(Shr(low, 4), limit - 4), 4);
      ShlShl(top, limit - 4, 4);
      LowSplit(low, 4, limit - 4);
      LowSmall(low, limit);
    }
  }

  // ----- literals -----

  lemma {:induction false} BitShl(x: nat, j: nat, n: nat)
    requires j <= n
    ensures Bit(Shl(x, j), n) == Bit(x, n - j)
  {
    if j > 0 {
      BitShl(x, j - 1, n - 1);
    }
  }

  /** Appending bit k - 1 of v to the symbol read so far. */
  lemma SymbolStep(v: nat, k: nat)
    requires 1 <= k <= 8
    ensures 2 * (Pow2(8 - k) + Shr(v, k)) + (if Bit(v, k - 1) then 1 else 0) == Pow2(9 - k) + Shr(v, k - 1)
  {
    ShrShr(v, k - 1, 1);
    assert Shr(Shr(v, k - 1), 1) == Shr(v, k - 1) / 2;
  }

  /** The variables of the loop with k bits to go: the symbol so far, the predicting byte shifted
      left, and 0x100 as long as all bits have agreed with it. */
  predicate MatchedState(k: nat, sym: nat, shifted: nat, bit: nat, pred: byte) {
    k <= 8 && Pow2(8 - k) <= sym < 2 * Pow2(8 - k) && shifted == Shl(pred, 9 - k) && (bit == 0x100 || bit == 0)
  }

  lemma MatchedUnfold(base: nat, k: nat, same: bool, pred: nat, v: nat, rest: Message)
    requires 0 < k <= 8
    ensures var sent, guess := if Bit(v, k - 1) then 1 else 0, if Bit(pred, k - 1) then 1 else 0;
      MatchedMessage(base, k, same, pred, v) + rest
      == [Coded(base + MatchedContext(k, same, guess, v), sent)] + (MatchedMessage(base, k - 1, same && sent == guess, pred, v) + rest)
  {
  }

  /** One iteration of the loop for a literal after a match. */
  method ReadMatchedBit(rd: RangeDecoder, base: nat, sym: nat, shifted: nat, bit: nat,
                        ghost k: nat, ghost pred: byte, ghost v: byte, ghost rest: Message, ghost end: Finish)
    returns (sym': nat, bit': nat)
    requires rd.Valid() && base + LITERAL_SIZE <= PROB_COUNT && MatchedState(k, sym, shifted, bit, pred) && 0 < k
    requires sym < 0x100
    modifies rd, rd.probs
    ensures rd.Valid() && MatchedState(k - 1, sym', 2 * shifted, bit', pred)
    ensures old(InStep(rd.input, rd.State(), MatchedMessage(base, k, bit == 0x100, pred, v) + rest, end)) && sym == Pow2(8 - k) + Shr(v, k) ==>
      sym' == Pow2(9 - k) + Shr(v, k - 1)
      && InStep(rd.input, rd.State(), MatchedMessage(base, k - 1, bit' == 0x100, pred, v) + rest, end)
  {
    hide InStep, Shl, Shr, Low, Bit, Pow2, MatchedMessage;
    BitShl(pred, 9 - k, 8);
    ShlNext(pred, 9 - k);
    Pow2Next(8 - k);
    var matchBit := if bit == 0x100 && Bit(shifted, 8) then 0x100 else 0;
    ghost var sent, guess := if Bit(v, k - 1) then 1 else 0, if Bit(pred, k - 1) then 1 else 0;
    ghost var tail := MatchedMessage(base, k - 1, bit == 0x100 && sent == guess, pred, v);
    ghost var ctx := base + MatchedContext(k, bit == 0x100, guess, v);
    MatchedUnfold(base, k, bit == 0x100, pred, v, rest);
    var b := rd.NextBit(base + (bit + matchBit + sym), sent, tail + rest, end);
    SymbolStep(v, k);
    sym' := 2 * sym + b;
    bit' := if b == 1 then matchBit else bit - matchBit;
  }

  lemma Pow2Next(n: nat)
    ensures Pow2(n + 1) == 2 * Pow2(n)
  {
  }

  /** The loop for a literal after a match. */
  method ReadMatchedLiteral(rd: RangeDecoder, base: nat, pred: byte, ghost v: byte, ghost rest: Message,
                            ghost end: Finish) returns (r: byte)
    requires rd.Valid() && base + LITERAL_SIZE <= PROB_COUNT
    modifies rd, rd.probs
    ensures rd.Valid()
    ensures old(InStep(rd.input, rd.State(), MatchedMessage(base, 8, true, pred, v) + rest, end)) ==>
              r == v && InStep(rd.input, rd.State(), rest, end)
  {
    ByteShifts(v);
    hide InStep, Shl, Shr, Low, Bit, Pow2;
    ghost var carried := InStep(rd.input, rd.State(), MatchedMessage(base, 8, true, pred, v) + rest, end);
    var sym, shifted, bit: nat := 1, Shl(pred, 1), 0x100;
    ghost var k: nat := 8;
    while sym < 0x100
      invariant rd.Valid() && MatchedState(k, sym, shifted, bit, pred)
      invariant carried ==> sym == Pow2(8 - k) + Shr(v, k)
                            && InStep(rd.input, rd.State(), MatchedMessage(base, k, bit == 0x100, pred, v) + rest, end)
      decreases k
    {
      sym, bit := ReadMatchedBit(rd, base, sym, shifted, bit, k, pred, v, rest, end);
      shifted := 2 * shifted;
      k := k - 1;
    }
    if k > 0 {
      Pow2Next(8 - k);
      Pow2Mono(9 - k, 8);
    }
    assert MatchedMessage(base, 0, bit == 0x100, pred, v) + rest == rest;
    r := sym % 0x100;
  }

  lemma ShlNext(x: nat, n: nat)
    ensures Shl(x, n + 1) == 2 * Shl(x, n)
  {
  }

  lemma ByteShifts(v: byte)
    ensures Shr(v, 8) == 0 && Shr(v, 0) == v && Pow2(0) == 1 && Pow2(8) == 0x100
  {
    assert Pow2(8) == 0x100;
    LowSmall(v, 8);
  }

  // ----- repeated matches -----

  /** Which of the last four distances is used, moved to the front in place. */
  method ReadRep(rd: RangeDecoder, lstate: nat, posState: nat, dist0: seq<nat>, ghost p: Packet, ghost rest: Message,
                 ghost end: Finish)
    returns (shortRep: bool, dist: seq<nat>)
    requires rd.Valid() && lstate < STATES && posState < POS_STATES && |dist0| == 4
    requires p.ShortRep? || (p.Rep? && p.index < 4)
    modifies rd, rd.probs
    ensures rd.Valid() && |dist| == 4
    ensures old(InStep(rd.input, rd.State(), RepMessage(lstate, posState, p) + rest, end)) ==>
      && InStep(rd.input, rd.State(), rest, end)
      && shortRep == p.ShortRep? && dist == if p.ShortRep? then dist0 else ToFront(dist0, p.index)
  {
    hide InStep;
    ghost var index := if p.Rep? then p.index else 0;
    ghost var first := if index == 0 then 0 else 1;
    ghost var long := if p.Rep? then 1 else 0;
    ghost var tail := if index == 0 then [Coded(IS_REP0_LONG + POS_STATES * lstate + posState,
                                                long)] else OtherRep(lstate, index);
    assert RepMessage(lstate, posState, p) + rest == [Coded(IS_REP0 + lstate, first)] + (tail + rest);
    var bit := rd.NextBit(IS_REP0 + lstate, first, tail + rest, end);
    if bit == 0 {
      bit := rd.NextBit(IS_REP0_LONG + POS_STATES * lstate + posState, long, rest, end);
      shortRep, dist := bit == 0, dist0;
    } else {
      dist := ReadOtherRep(rd, lstate, dist0, if index == 0 then 1 else index, rest, end);
      shortRep := false;
    }
  }

  /** The bits that tell distances 1 to 3 apart. */
  function OtherRep(lstate: nat, index: nat): Message {
    if index == 1 then [Coded(IS_REP1 + lstate, 0)]
    else [Coded(IS_REP1 + lstate, 1)] + [Coded(IS_REP2 + lstate, if index == 3 then 1 else 0)]
  }

  method ReadOtherRep(rd: RangeDecoder, lstate: nat, dist0: seq<nat>, ghost index: nat, ghost rest: Message,
                      ghost end: Finish)
    returns (dist: seq<nat>)
    requires rd.Valid() && lstate < STATES && |dist0| == 4 && 1 <= index < 4
    modifies rd, rd.probs
    ensures rd.Valid() && |dist| == 4
    ensures old(InStep(rd.input, rd.State(), OtherRep(lstate, index) + rest, end)) ==>
      InStep(rd.input, rd.State(), rest, end) && dist == ToFront(dist0, index)
  {
    hide InStep;
    ghost var second, third := if index == 1 then 0 else 1, if index == 3 then 1 else 0;
    ghost var tail := if index == 1 then [] else [Coded(IS_REP2 + lstate, third)];
    assert OtherRep(lstate, index) + rest == [Coded(IS_REP1 + lstate, second)] + (tail + rest);
    assert index == 1 ==> tail + rest == rest;
    var nextDist;
    dist := dist0;
    var bit := rd.NextBit(IS_REP1 + lstate, second, tail + rest, end);
    if bit == 1 {
      bit := rd.NextBit(IS_REP2 + lstate, third, rest, end);
      if bit == 1 {
        nextDist := dist[3];
        dist := dist[3 := dist[2]];
      } else {
        nextDist := dist[2];
      }
      dist := dist[2 := dist[1]];
    } else {
      nextDist := dist[1];
    }
    dist := dist[1 := dist[0]];
    dist := dist[0 := nextDist];
  }

  // ----- one packet -----

  /** The variables of the decoder besides the range coder. */
  function StateOf(lstate: nat, dist: seq<nat>, out: seq<byte>, dict: nat): LzmaPackets.State {
    LzmaPackets.State(lstate, dist, out, dict)
  }

  /** The literal branch: reads a literal. */
  method ReadLiteral(rd: RangeDecoder, s: LzmaPackets.State, props: Props, ghost v: byte, ghost rest: Message,
                     ghost end: Finish)
    returns (r: byte)
    requires rd.Valid() && s.Valid() && props.Valid()
    modifies rd, rd.probs
    ensures rd.Valid()
    ensures old(InStep(rd.input, rd.State(), LiteralMessage(s, props, v) + rest, end)) ==>
              r == v && InStep(rd.input, rd.State(), rest, end)
  {
    TreeSizes();
    hide InStep, Shl, Shr, Low, Pow2, MsbMessage, DecodeMsb;
    var base := LiteralBase(s, props);
    if s.lstate < 7 {
      LowIsSmall(v, 8);
      var x := rd.ReadInteger(base, 8, v, rest, end);
      r := x;
    } else {
      r := ReadMatchedLiteral(rd, base, MatchByte(s), v, rest, end);
    }
  }

  /** The match branches: reads everything up to the copy; returns the new state machine state, the
      new distances and the length. */
  method ReadMatch(rd: RangeDecoder, lstate: nat, dist: seq<nat>, posState: nat, ghost p: Packet,
                   ghost rest: Message, ghost end: Finish)
    returns (lstate': nat, dist': seq<nat>, len: nat)
    requires rd.Valid() && lstate < STATES && |dist| == 4 && posState < POS_STATES && Allowed(p)
    modifies rd, rd.probs
    ensures rd.Valid() && lstate' < STATES && |dist'| == 4 && len > 0
    ensures !p.Lit? && old(InStep(rd.input, rd.State(), MatchMessage(lstate, posState, p) + rest, end)) ==>
      && InStep(rd.input, rd.State(), rest, end)
      && lstate' == MatchState(lstate, p) && dist' == MatchDist(dist, p) && len == MatchLen(p)
  {
    hide InStep;
    ghost var isRep := if p.Match? then 0 else 1;
    ghost var tail := MatchTail(lstate, posState, p);
    assert !p.Lit? ==> MatchMessage(lstate, posState, p) + rest == [Coded(IS_REP + lstate, isRep)] + (tail + rest);
    var bit := rd.NextBit(IS_REP + lstate, isRep, tail + rest, end);
    if bit == 1 {
      lstate', dist', len := ReadRepeat(rd, lstate, dist, posState, if p.ShortRep? || p.Rep? then p else ShortRep, rest, end);
    } else {
      lstate', dist', len := ReadNewMatch(rd, lstate, dist, posState, if p.Match? then p else Match(0, 0, 2), rest, end);
    }
  }

  method ReadNewMatch(rd: RangeDecoder, lstate: nat, dist: seq<nat>, posState: nat, ghost p: Packet,
                      ghost rest: Message, ghost end: Finish)
    returns (lstate': nat, dist': seq<nat>, len: nat)
    requires rd.Valid() && lstate < STATES && |dist| == 4 && posState < POS_STATES && Allowed(p) && p.Match?
    modifies rd, rd.probs
    ensures rd.Valid() && lstate' < STATES && |dist'| == 4 && len > 0
    ensures old(InStep(rd.input, rd.State(), MatchTail(lstate, posState, p) + rest, end)) ==>
      && InStep(rd.input, rd.State(), rest, end)
      && lstate' == MatchState(lstate, p) && dist' == MatchDist(dist, p) && len == MatchLen(p)
  {
    hide InStep, LenMessage, DistMessage, SlotDistance;
    ghost var lenPart, distPart := LenMessage(MATCH_LEN, posState, p.len), DistMessage(p.len, p.slot, p.low);
    assert MatchTail(lstate, posState, p) + rest == lenPart + (distPart + rest);
    lstate' := if lstate < 7 then 7 else 10;
    len := ReadLen(rd, MATCH_LEN, posState, p.len, distPart + rest, end);
    var d := ReadDist(rd, len, p.slot, p.low, rest, end);
    dist' := [d] + dist[..3];
  }

  method ReadRepeat(rd: RangeDecoder, lstate: nat, dist: seq<nat>, posState: nat, ghost p: Packet,
                    ghost rest: Message, ghost end: Finish)
    returns (lstate': nat, dist': seq<nat>, len: nat)
    requires rd.Valid() && lstate < STATES && |dist| == 4 && posState < POS_STATES && Allowed(p) && (p.ShortRep? || p.Rep?)
    modifies rd, rd.probs
    ensures rd.Valid() && lstate' < STATES && |dist'| == 4 && len > 0
    ensures old(InStep(rd.input, rd.State(), MatchTail(lstate, posState, p) + rest, end)) ==>
      && InStep(rd.input, rd.State(), rest, end)
      && lstate' == MatchState(lstate, p) && dist' == MatchDist(dist, p) && len == MatchLen(p)
  {
    hide InStep, LenMessage, RepMessage;
    ghost var lenPart := if p.Rep? then LenMessage(REP_LEN, posState, p.len) else [];
    assert MatchTail(lstate, posState, p) + rest == RepMessage(lstate, posState, p) + (lenPart + rest);
    assert p.ShortRep? ==> lenPart + rest == rest;
    var shortRep;
    shortRep, dist' := ReadRep(rd, lstate, posState, dist, p, lenPart + rest, end);
    lstate' := if lstate < 7 then (if shortRep then 9 else 8) else 11;
    if shortRep {
      len := 1;
    } else {
      len := ReadLen(rd, REP_LEN, posState, if p.Rep? then p.len else 2, rest, end);
    }
  }

  /** One packet: the literal branch stores a byte, the match branches copy.  (A distance of 2^32, which
      the C code wraps to zero and then copies for ever, is refused here.) */
  method DecodePacket(rd: RangeDecoder, out: array<byte>, pos: nat, dict: nat, props: Props, lstate: nat,
                      dist: seq<nat>,
                      ghost p: Packet, ghost rest: Message, ghost end: Finish)
    returns (ok: bool, pos': nat, lstate': nat, dist': seq<nat>)
    requires rd.Valid() && dict <= pos <= out.Length && props.Valid() && lstate < STATES && |dist| == 4 && Allowed(p)
    modifies rd, rd.probs, out
    ensures rd.Valid() && pos <= pos' <= out.Length && lstate' < STATES && |dist'| == 4
    ensures ok ==> pos < pos'
    ensures old(Applies(StateOf(lstate, dist, out[..pos], dict), p))
            && old(InStep(rd.input, rd.State(), PacketMessage(StateOf(lstate, dist, out[..pos], dict), props, p) + rest, end)) ==>
      if ok then StateOf(lstate', dist', out[..pos'], dict) == Apply(StateOf(lstate, dist, old(out[..pos]), dict), p)
                 && InStep(rd.input, rd.State(), rest, end)
      else |Apply(StateOf(lstate, dist, old(out[..pos]), dict), p).out| > out.Length
  {
    hide InStep, LiteralMessage, MatchMessage, MatchState, MatchDist, MatchLen, Low, Pow2;
    var s := StateOf(lstate, dist, out[..pos], dict);
    var posState := PosState(s, props);
    PosStateBound(pos - dict, props);
    ghost var tail := if p.Lit? then LiteralMessage(s, props, p.b) else MatchMessage(lstate, posState, p);
    ghost var isMatch := if p.Lit? then 0 else 1;
    assert PacketMessage(s, props, p) + rest == [Coded(IS_MATCH + POS_STATES * lstate + posState, isMatch)] + (tail + rest);
    var bit := rd.NextBit(IS_MATCH + POS_STATES * lstate + posState, isMatch, tail + rest, end);
    if bit == 1 {
      var len;
      lstate', dist', len := ReadMatch(rd, lstate, dist, posState, p, rest, end);
      pos' := pos;
      if dist'[0] + 1 >= 0x1_0000_0000 || pos - dict < dist'[0] + 1 || pos + len > out.Length {
        return false, pos', lstate', dist';
      }
      pos' := CopyMatch(out, pos, dist'[0] + 1, len);
      ok := true;
    } else {
      var sym := ReadLiteral(rd, s, props, if p.Lit? then p.b else 0, rest, end);
      lstate', dist', pos' := lstate, dist, pos;
      if pos >= out.Length {
        return false, pos', lstate', dist';
      }
      out[pos] := sym;
      assert out[..pos + 1] == s.out + [sym];
      pos' := pos + 1;
      lstate' := AfterLiteral(lstate);
      ok := true;
    }
  }

  // ----- the chunk -----

  /** The packets still to come are ps; they lead to the same final state as all of them. */
  ghost predicate ChunkProgress(input: seq<byte>, d: Decoder, s: LzmaPackets.State, props: Props, ps: seq<Packet>,
                                end: Finish,
                                final: LzmaPackets.State) {
    && props.Valid() && AllApply(s, ps) && ApplyAll(s, ps) == final
    && InStep(input, d, ChunkMessage(s, props, ps), end)
  }

  lemma {:induction false} ApplyAllGrows(s: LzmaPackets.State, ps: seq<Packet>)
    requires AllApply(s, ps)
    ensures |ApplyAll(s, ps).out| >= |s.out| + |ps|
    decreases |ps|
  {
    if ps != [] {
      ApplyAllGrows(Apply(s, ps[0]), ps[1..]);
    }
  }

  /** What the next packet of a chunk promises. */
  lemma NextPacket(input: seq<byte>, d: Decoder, s: LzmaPackets.State, props: Props, ps: seq<Packet>, end: Finish,
                   final: LzmaPackets.State)
    requires ChunkProgress(input, d, s, props, ps, end, final)
    ensures d.off <= end.off && |s.out| + |ps| <= |final.out|
    ensures ps == [] ==> s == final && (d.off, d.range, d.probs) == (end.off, end.range, end.probs)
    ensures ps != [] ==>
      && Applies(s, ps[0]) && |Apply(s, ps[0]).out| <= |final.out|
      && InStep(input, d, PacketMessage(s, props, ps[0]) + ChunkMessage(Apply(s, ps[0]), props, ps[1..]), end)
  {
    ApplyAllGrows(s, ps);
    if ps != [] {
      ApplyAllGrows(Apply(s, ps[0]), ps[1..]);
    }
  }

  /** The decode loop.  In step with an encoder that sends the packets ps, whose digits stop before
      the limit, it stops after exactly those packets, with exactly their state and output, and with
      the reader behind the digits and the last normalisation; it only fails if the output does not
      fit. */
  method DecodeChunk(rd: RangeDecoder, out: array<byte>, pos0: nat, dict: nat, props: Props, lstate0: nat,
                     dist0: seq<nat>,
                     chunkSize: nat, limit: nat, ghost ps: seq<Packet>, ghost end: Finish)
    returns (ok: bool, pos: nat, lstate: nat, dist: seq<nat>)
    requires rd.Valid() && dict <= pos0 <= out.Length && props.Valid() && lstate0 < STATES && |dist0| == 4
    modifies rd, rd.probs, out
    ensures rd.Valid() && pos0 <= pos <= out.Length && lstate < STATES && |dist| == 4
    ensures var s0 := StateOf(lstate0, dist0, old(out[..pos0]), dict);
      AllApply(s0, ps) && |ApplyAll(s0, ps).out| == pos0 + chunkSize && end.off < limit
      && old(InStep(rd.input, rd.State(), ChunkMessage(s0, props, ps), end)) ==>
        if ok then StateOf(lstate, dist, out[..pos], dict) == ApplyAll(s0, ps)
                   && rd.off == OffAfter(rd.input, end) && rd.probs[..] == end.probs
        else pos0 + chunkSize > out.Length
  {
    hide InStep, Applies, Apply, AllApply, ApplyAll, PacketMessage, ChunkMessage;
    ghost var s0 := StateOf(lstate0, dist0, out[..pos0], dict);
    ghost var carried := AllApply(s0, ps) && |ApplyAll(s0, ps).out| == pos0 + chunkSize && end.off < limit
                         && InStep(rd.input, rd.State(), ChunkMessage(s0, props, ps), end);
    ghost var final := if AllApply(s0, ps) then ApplyAll(s0, ps) else s0;
    ghost var s, rest := s0, ps;
    pos, lstate, dist := pos0, lstate0, dist0;
    while rd.off < limit
      invariant rd.Valid() && pos0 <= pos <= out.Length && lstate < STATES && |dist| == 4
      invariant s == StateOf(lstate, dist, out[..pos], dict)
      invariant carried ==> ChunkProgress(rd.input, rd.State(), s, props, rest, end, final)
      decreases out.Length - pos
    {
      if carried {
        NextPacket(rd.input, rd.State(), s, props, rest, end, final);
      }
      if pos == pos0 + chunkSize {
        break;
      }
      if carried {
        FirstPacket(s, props, rest);
      }
      ghost var p := if carried && rest != [] then rest[0] else ShortRep;
      ghost var tail := if carried && rest != [] then ChunkTail(s, props, rest) else [];
      ok, pos, lstate, dist := DecodePacket(rd, out, pos, dict, props, lstate, dist, p, tail, end);
      if !ok {
        return;
      }
      s := StateOf(lstate, dist, out[..pos], dict);
      rest := if carried && rest != [] then rest[1..] else [];
    }
    if carried {
      NextPacket(rd.input, rd.State(), s, props, rest, end, final);
    }
    rd.NormalizeRange();
    ok := true;
  }

  lemma FirstPacket(s: LzmaPackets.State, props: Props, ps: seq<Packet>)
    requires props.Valid() && AllApply(s, ps) && ps != []
    ensures Allowed(ps[0]) && Applies(s, ps[0])
    ensures AllApply(Apply(s, ps[0]), ps[1..]) && ApplyAll(Apply(s, ps[0]), ps[1..]) == ApplyAll(s, ps)
    ensures ChunkTail(s, props, ps) == ChunkMessage(Apply(s, ps[0]), props, ps[1..])
  {
  }

  ghost function ChunkTail(s: LzmaPackets.State, props: Props, ps: seq<Packet>): Message
    requires props.Valid() && ps != [] && AllApply(s, ps)
  {
    ChunkMessage(Apply(s, ps[0]), props, ps[1..])
  }

  /** An LZMA chunk from its range coder bytes at off on.  If those bytes are any number in the final
      interval of the reference encoder for the packets ps, the chunk decodes to exactly what the
      packets say and leaves the encoder's probabilities and the offset just behind its digits, or
      the output buffer is too small. */
  method UncompressChunk(input: seq<byte>, off: nat, probs: array<nat>, out: array<byte>, pos0: nat, dict: nat,
                         props: Props, lstate0: nat, dist0: seq<nat>, uncompressedSize: nat, compressedSize: nat,
                         ghost ps: seq<Packet>)
    returns (ok: bool, pos: nat, lstate: nat, dist: seq<nat>, off': nat)
    requires dict <= pos0 <= out.Length && props.Valid() && lstate0 < STATES && |dist0| == 4
    requires probs.Length == PROB_COUNT && ProbsOk(probs[..])
    modifies probs, out
    ensures pos0 <= pos <= out.Length && lstate < STATES && |dist| == 4 && ProbsOk(probs[..])
    ensures ok ==> off' >= off + 5
    ensures var s0 := StateOf(lstate0, dist0, old(out[..pos0]), dict);
      AllApply(s0, ps) && |ApplyAll(s0, ps).out| == pos0 + uncompressedSize
      && Sent(input, off, old(probs[..]), ChunkMessage(s0, props, ps), compressedSize) ==>
        var end := Finished(off, old(probs[..]), ChunkMessage(s0, props, ps));
        if ok then StateOf(lstate, dist, out[..pos], dict) == ApplyAll(s0, ps)
                   && off' == OffAfter(input, end) && probs[..] == end.probs
        else pos0 + uncompressedSize > out.Length
  {
    hide InStep, AllApply, ApplyAll, ChunkMessage, EmitAll, Usable, Encode, Digits;
    pos, lstate, dist, off' := pos0, lstate0, dist0, off;
    if off + 5 > |input| {
      return false, pos, lstate, dist, off';
    }
    ghost var s0 := StateOf(lstate0, dist0, out[..pos0], dict);
    ghost var m := if AllApply(s0, ps) then ChunkMessage(s0, props, ps) else [];
    if Sent(input, off, probs[..], m, compressedSize) {
      StartInStep(input, off, probs[..], m);
    }
    ghost var end := if Usable(m, |probs[..]|) then Finished(off, probs[..], m) else Finish(0, 0, []);
    var rd := new RangeDecoder(input, off, probs);
    ok, pos, lstate, dist := DecodeChunk(rd, out, pos0, dict, props, lstate0, dist0, uncompressedSize, off + 5 + compressedSize, ps, end);
    off' := rd.off;
  }

  /** The input at off is what the reference encoder sends for m: a skipped byte and the digits of a
      number in its final interval, within the compressed size. */
  ghost predicate Sent(input: seq<byte>, off: nat, probs: seq<nat>, m: Message, size: nat) {
    && Usable(m, |probs|)
    && off + 5 <= |input|
    && Chosen(input, off + 1, EmitAll(StartEncoder(probs), m))
    && 1 + EmitAll(StartEncoder(probs), m).digits < 5 + size
  }

  ghost predicate Chosen(input: seq<byte>, off: nat, e: Encoder) {
    off + e.digits <= |input| && e.low <= Digits(input, off, e.digits) < e.low + e.range
  }
}
