/** The packets of an LZMA chunk: what each does to the decoder state, and the message of range
    coder events it is sent as. */
module LzmaPackets {
  import opened Bits
  import opened MatchCopy
  import opened RangeCoder
  import opened LzmaIntegers
  import opened LzmaReader

  /** The property byte: literal context, literal position and position bits. */
  datatype Props = Props(lc: nat, lp: nat, pb: nat) {
    predicate Valid() {
      lc + lp <= 4 && pb <= 4
    }
  }

  /** A match is given by its distance slot, the bits below the slot, and its length. */
  datatype Packet =
    | Lit(b: byte)
    | Match(slot: nat, low: nat, len: nat)
    | ShortRep
    | Rep(index: nat, len: nat)

  /** State machine state, the last four distances (less one), and the output so far; the
      dictionary starts at dict. */
  datatype State = State(lstate: nat, dist: seq<nat>, out: seq<byte>, dict: nat) {
    predicate Valid() {
      lstate < STATES && |dist| == 4 && dict <= |out|
    }
  }

  // ----- lengths and distances -----

  predicate LengthOk(len: nat) {
    2 <= len <= 273
  }

  function LowBits(slot: nat): nat {
    if slot < 4 then 0 else slot / 2 - 1
  }

  predicate SlotOk(slot: nat, low: nat) {
    slot < 64 && low < Pow2(LowBits(slot))
  }

  /** The distance less one. */
  function SlotDistance(slot: nat, low: nat): nat {
    if slot < 4 then slot else Shl(2 + slot % 2, LowBits(slot)) + low
  }

  predicate Allowed(p: Packet) {
    match p
    case Lit(_) => true
    case Match(slot, low, len) => SlotOk(slot, low) && LengthOk(len)
    case ShortRep => true
    case Rep(index, len) => index < 4 && LengthOk(len)
  }

  // ----- effect of a packet -----

  function AfterLiteral(lstate: nat): nat {
    if lstate <= 3 then 0 else if lstate <= 9 then lstate - 3 else lstate - 6
  }

  /** Distance number i moves to the front. */
  function ToFront(dist: seq<nat>, i: nat): seq<nat>
    requires |dist| == 4 && i < 4
  {
    [dist[i]] + dist[..i] + dist[i + 1..]
  }

  /** The distance, which is one more, is a 32-bit number and lies in the dictionary. */
  predicate Reachable(s: State, dist: nat) {
    s.Valid() && dist + 1 <= |s.out| - s.dict && dist + 1 < 0x1_0000_0000
  }

  /** State machine state, distances and length of the match packets. */
  function MatchState(lstate: nat, p: Packet): nat {
    match p
    case Lit(_) => lstate
    case Match(_, _, _) => if lstate < 7 then 7 else 10
    case ShortRep => if lstate < 7 then 9 else 11
    case Rep(_, _) => if lstate < 7 then 8 else 11
  }

  function MatchDist(dist: seq<nat>, p: Packet): (r: seq<nat>)
    requires |dist| == 4 && Allowed(p)
    ensures |r| == 4
  {
    match p
    case Match(slot, low, _) => [SlotDistance(slot, low)] + dist[..3]
    case Rep(index, _) => ToFront(dist, index)
    case _ => dist
  }

  function MatchLen(p: Packet): nat {
    match p
    case Match(_, _, len) => len
    case Rep(_, len) => len
    case _ => 1
  }

  /** Whether the packet can be applied: its distance lies in the dictionary. */
  predicate Applies(s: State, p: Packet) {
    s.Valid() && Allowed(p) && (p.Lit? || Reachable(s, MatchDist(s.dist, p)[0]))
  }

  /** A match copies from the distance that is now at the front. */
  function Apply(s: State, p: Packet): (r: State)
    requires Applies(s, p)
    ensures r.Valid() && r.dict == s.dict && |r.out| > |s.out|
  {
    match p
    case Lit(b) => s.(lstate := AfterLiteral(s.lstate), out := s.out + [b])
    case _ =>
      var dist := MatchDist(s.dist, p);
      State(MatchState(s.lstate, p), dist, Repeat(s.out, dist[0] + 1, MatchLen(p)), s.dict)
  }

  // ----- messages -----

  function PosState(s: State, props: Props): nat
    requires s.Valid()
  {
    Low(|s.out| - s.dict, props.pb)
  }

  /** A length, in the coder at base: three ranges, told apart by one or two choice bits. */
  function LenMessage(base: nat, posState: nat, len: nat): Message
    requires LengthOk(len)
  {
    if len < 10 then [Coded(base, 0)] + MsbMessage(base + 2 + 8 * posState, 1, 3, len - 2)
    else [Coded(base, 1)] + LongLenMessage(base, posState, len)
  }

  function LongLenMessage(base: nat, posState: nat, len: nat): Message
    requires 10 <= len <= 273
  {
    if len < 18 then [Coded(base + 1, 0)] + MsbMessage(base + 2 + 8 * POS_STATES + 8 * posState, 1, 3, len - 10)
    else [Coded(base + 1, 1)] + MsbMessage(base + 2 + 16 * POS_STATES, 1, 8, len - 18)
  }

  /** k equiprobable bits of v, most significant first. */
  function DirectMessage(k: nat, v: nat): Message {
    if k == 0 then [] else [Direct(if Bit(v, k - 1) then 1 else 0)] + DirectMessage(k - 1, v)
  }

  function DistState(len: nat): nat {
    if len < 6 then (if len < 2 then 0 else len - 2) else 3
  }

  /** The bits of a distance below its slot. */
  function LowMessage(slot: nat, low: nat): Message {
    if slot < 4 then []
    else if slot < 14 then LsbMessage(SpecialBase(slot), 1, LowBits(slot), low)
    else DirectMessage(LowBits(slot) - 4, Shr(low, 4)) + LsbMessage(DIST_ALIGN, 1, 4, low)
  }

  /** The special distances of a slot start at DIST_SPECIAL + distance - slot, less one because
      bit trees start at symbol 1. */
  function SpecialBase(slot: nat): (b: nat)
    requires 4 <= slot < 14
    ensures b + Shl(2, LowBits(slot)) <= DIST_ALIGN + 128
  {
    SpecialDistance(slot);
    DIST_SPECIAL + Shl(2 + slot % 2, LowBits(slot)) - slot - 1
  }

  lemma SpecialDistance(slot: nat)
    requires 4 <= slot < 14
    ensures slot <= Shl(2 + slot % 2, LowBits(slot)) <= 96 && Shl(2, LowBits(slot)) <= 64
  {
    ShlIsTimes(2 + slot % 2, LowBits(slot));
    ShlIsTimes(2, LowBits(slot));
    SmallPowers(LowBits(slot));
  }

  lemma SmallPowers(n: nat)
    requires 1 <= n <= 5
    ensures Pow2(n) == [2, 4, 8, 16, 32][n - 1]
  {
  }

  function DistMessage(len: nat, slot: nat, low: nat): Message {
    MsbMessage(DIST_SLOT + 64 * DistState(len), 1, 6, slot) + LowMessage(slot, low)
  }

  /** The literal coder for the next byte. */
  function LiteralBase(s: State, props: Props): (b: nat)
    requires s.Valid() && props.Valid()
    ensures LITERAL <= b && b + LITERAL_SIZE <= PROB_COUNT
  {
    var prev: nat := if s.out == [] then 0 else s.out[|s.out| - 1];
    var low, high := Shr(prev, 8 - props.lc), Shl(Low(|s.out| - s.dict, props.lp), props.lc);
    LiteralContext(prev, |s.out| - s.dict, props);
    LITERAL + LITERAL_SIZE * (low + high)
  }

  lemma LiteralContext(prev: nat, n: nat, props: Props)
    requires prev < 256 && props.Valid()
    ensures Shr(prev, 8 - props.lc) + Shl(Low(n, props.lp), props.lc) < 16
  {
    assert Pow2(8) == 256 && Pow2(4) == 16;
    ShrBound(prev, 8 - props.lc, props.lc);
    LowBound(n, props.lp);
    ShlMono(Low(n, props.lp), Pow2(props.lp) - 1, props.lc);
    ShlAdd(Pow2(props.lp) - 1, 1, props.lc);
    ShlPow2(props.lp, props.lc);
    ShlPow2(0, props.lc);
    Pow2Mono(props.lc + props.lp, 4);
  }

  /** The byte at the last distance, which predicts a literal after a match. */
  function MatchByte(s: State): nat
    requires s.Valid()
  {
    if |s.out| >= s.dist[0] + 1 then s.out[|s.out| - s.dist[0] - 1] else 0
  }

  /** The remaining k bits of the literal v, predicted by the byte `pred`: while `same` holds, all
      bits so far have agreed with it. */
  function MatchedMessage(base: nat, k: nat, same: bool, pred: nat, v: nat): Message
    requires k <= 8
    decreases k
  {
    if k == 0 then []
    else
      var bit, guess := if Bit(v, k - 1) then 1 else 0, if Bit(pred, k - 1) then 1 else 0;
      [Coded(base + MatchedContext(k, same, guess, v), bit)] + MatchedMessage(base, k - 1, same && bit == guess, pred, v)
  }

  /** Context: the bits so far as a bit-tree symbol, in one of three trees. */
  function MatchedContext(k: nat, same: bool, guess: nat, v: nat): nat
    requires k <= 8
  {
    (if !same then 0 else 0x100 + 0x100 * guess) + Pow2(8 - k) + Shr(v, k)
  }

  function LiteralMessage(s: State, props: Props, b: byte): Message
    requires s.Valid() && props.Valid()
  {
    if s.lstate < 7 then MsbMessage(LiteralBase(s, props), 1, 8, b)
    else MatchedMessage(LiteralBase(s, props), 8, true, MatchByte(s), b)
  }

  /** The bits that tell repeated matches apart. */
  function RepMessage(lstate: nat, posState: nat, p: Packet): Message
    requires p.ShortRep? || (p.Rep? && p.index < 4)
  {
    match p
    case ShortRep => [Coded(IS_REP0 + lstate, 0)] + [Coded(IS_REP0_LONG + POS_STATES * lstate + posState, 0)]
    case Rep(index, _) =>
      if index == 0 then [Coded(IS_REP0 + lstate, 0)] + [Coded(IS_REP0_LONG + POS_STATES * lstate + posState, 1)]
      else if index == 1 then [Coded(IS_REP0 + lstate, 1)] + [Coded(IS_REP1 + lstate, 0)]
      else [Coded(IS_REP0 + lstate, 1)] + ([Coded(IS_REP1 + lstate, 1)] + [Coded(IS_REP2 + lstate, if index == 3 then 1 else 0)])
  }

  /** What follows the bits that announce a match, and a new or a repeated one. */
  function MatchTail(lstate: nat, posState: nat, p: Packet): Message
    requires Allowed(p)
  {
    match p
    case Lit(_) => []
    case Match(slot, low, len) => LenMessage(MATCH_LEN, posState, len) + DistMessage(len, slot, low)
    case ShortRep => RepMessage(lstate, posState, p)
    case Rep(_, len) => RepMessage(lstate, posState, p) + LenMessage(REP_LEN, posState, len)
  }

  function MatchMessage(lstate: nat, posState: nat, p: Packet): Message
    requires Allowed(p)
  {
    [Coded(IS_REP + lstate, if p.Match? then 0 else 1)] + MatchTail(lstate, posState, p)
  }

  function IsMatchContext(s: State, props: Props): nat
    requires s.Valid()
  {
    IS_MATCH + POS_STATES * s.lstate + PosState(s, props)
  }

  /** The message of a packet sent in state s. */
  function PacketMessage(s: State, props: Props, p: Packet): Message
    requires s.Valid() && props.Valid() && Allowed(p)
  {
    if p.Lit? then [Coded(IsMatchContext(s, props), 0)] + LiteralMessage(s, props, p.b)
    else [Coded(IsMatchContext(s, props), 1)] + MatchMessage(s.lstate, PosState(s, props), p)
  }

  /** All packets apply one after the other. */
  predicate AllApply(s: State, ps: seq<Packet>)
    decreases |ps|
  {
    ps == [] || (Applies(s, ps[0]) && AllApply(Apply(s, ps[0]), ps[1..]))
  }

  function ApplyAll(s: State, ps: seq<Packet>): State
    requires AllApply(s, ps)
    decreases |ps|
  {
    if ps == [] then s else ApplyAll(Apply(s, ps[0]), ps[1..])
  }

  function ChunkMessage(s: State, props: Props, ps: seq<Packet>): Message
    requires props.Valid() && AllApply(s, ps)
    decreases |ps|
  {
    if ps == [] then [] else PacketMessage(s, props, ps[0]) + ChunkMessage(Apply(s, ps[0]), props, ps[1..])
  }

  // ----- every packet sequence has a message -----

  lemma ShlTwo(n: nat)
    ensures Shl(2, n) == 2 * Pow2(n)
  {
    ShlTwice(1, n);
    ShlOne(n);
  }

  lemma TreeSizes()
    ensures Shl(2, 3) == 16 && Shl(2, 4) == 32 && Shl(2, 6) == 128 && Shl(2, 8) == 512
    ensures Pow2(3) == 8 && Pow2(4) == 16 && Pow2(6) == 64 && Pow2(8) == 256
  {
    ShlTwo(3);
    ShlTwo(4);
    ShlTwo(6);
    ShlTwo(8);
  }

  lemma LenUsable(base: nat, posState: nat, len: nat)
    requires LengthOk(len) && posState < POS_STATES && base + LEN_SIZE <= LITERAL
    ensures Usable(LenMessage(base, posState, len), PROB_COUNT)
  {
    hide Usable, MsbMessage, Shl, Pow2;
    TreeSizes();
    if len < 10 {
      MsbUsable(base + 2 + 8 * posState, 1, 3, len - 2, PROB_COUNT);
      UsableCons(Coded(base, 0), MsbMessage(base + 2 + 8 * posState, 1, 3, len - 2), PROB_COUNT);
    } else {
      LongLenUsable(base, posState, len);
      UsableCons(Coded(base, 1), LongLenMessage(base, posState, len), PROB_COUNT);
    }
  }

  lemma LongLenUsable(base: nat, posState: nat, len: nat)
    requires 10 <= len <= 273 && posState < POS_STATES && base + LEN_SIZE <= LITERAL
    ensures Usable(LongLenMessage(base, posState, len), PROB_COUNT)
  {
    hide Usable, MsbMessage, Shl, Pow2;
    TreeSizes();
    var mid, high := base + 2 + 8 * POS_STATES + 8 * posState, base + 2 + 16 * POS_STATES;
    if len < 18 {
      MsbUsable(mid, 1, 3, len - 10, PROB_COUNT);
      UsableCons(Coded(base + 1, 0), MsbMessage(mid, 1, 3, len - 10), PROB_COUNT);
    } else {
      MsbUsable(high, 1, 8, len - 18, PROB_COUNT);
      UsableCons(Coded(base + 1, 1), MsbMessage(high, 1, 8, len - 18), PROB_COUNT);
    }
  }

  lemma {:induction false} DirectUsable(k: nat, v: nat)
    ensures Usable(DirectMessage(k, v), PROB_COUNT)
  {
    if k > 0 {
      DirectUsable(k - 1, v);
    }
  }

  lemma DistUsable(len: nat, slot: nat, low: nat)
    requires slot < 64
    ensures Usable(DistMessage(len, slot, low), PROB_COUNT)
  {
    hide Usable, MsbMessage, LsbMessage, DirectMessage, Shl, Pow2, Shr;
    TreeSizes();
    MsbUsable(DIST_SLOT + 64 * DistState(len), 1, 6, slot, PROB_COUNT);
    LowUsable(slot, low);
    UsableConcat(MsbMessage(DIST_SLOT + 64 * DistState(len), 1, 6, slot), LowMessage(slot, low), PROB_COUNT);
  }

  lemma LowUsable(slot: nat, low: nat)
    requires slot < 64
    ensures Usable(LowMessage(slot, low), PROB_COUNT)
  {
    hide MsbMessage, LsbMessage, DirectMessage, Shl, Pow2, Shr;
    TreeSizes();
    if 4 <= slot < 14 {
      LsbUsable(SpecialBase(slot), 1, LowBits(slot), low, PROB_COUNT);
    } else if 14 <= slot {
      DirectUsable(LowBits(slot) - 4, Shr(low, 4));
      LsbUsable(DIST_ALIGN, 1, 4, low, PROB_COUNT);
      UsableConcat(DirectMessage(LowBits(slot) - 4, Shr(low, 4)), LsbMessage(DIST_ALIGN, 1, 4, low), PROB_COUNT);
    }
  }

  lemma {:induction false} MatchedUsable(base: nat, k: nat, same: bool, pred: nat, v: byte)
    requires k <= 8 && base + LITERAL_SIZE <= PROB_COUNT
    ensures Usable(MatchedMessage(base, k, same, pred, v), PROB_COUNT)
    decreases k
  {
    if k > 0 {
      var bit, guess := if Bit(v, k - 1) then 1 else 0, if Bit(pred, k - 1) then 1 else 0;
      MatchedUsable(base, k - 1, same && bit == guess, pred, v);
      UpperBits(v, k);
    }
  }

  /** The bits of a byte above the lowest. */
  lemma UpperBits(v: byte, k: nat)
    requires 0 < k <= 8
    ensures Shr(v, k) < Pow2(8 - k) <= 128
  {
    assert Pow2(8) == 256;
    ShrBound(v, k, 8 - k);
    Pow2Mono(8 - k, 7);
    assert Pow2(7) == 128;
  }

  lemma LiteralUsable(s: State, props: Props, b: byte)
    requires s.Valid() && props.Valid()
    ensures Usable(LiteralMessage(s, props, b), PROB_COUNT)
  {
    if s.lstate < 7 {
      ShlTwo(8);
      assert Pow2(8) == 256;
      MsbUsable(LiteralBase(s, props), 1, 8, b, PROB_COUNT);
    } else {
      MatchedUsable(LiteralBase(s, props), 8, true, MatchByte(s), b);
    }
  }

  lemma PosStateBound(n: nat, props: Props)
    requires props.Valid()
    ensures Low(n, props.pb) < POS_STATES
  {
    LowBound(n, props.pb);
    Pow2Mono(props.pb, 4);
    assert Pow2(4) == 16;
  }

  lemma PacketUsable(s: State, props: Props, p: Packet)
    requires s.Valid() && props.Valid() && Allowed(p)
    ensures Usable(PacketMessage(s, props, p), PROB_COUNT)
  {
    hide LenMessage, DistMessage, LiteralMessage, Low;
    PosStateBound(|s.out| - s.dict, props);
    match p
    case Lit(b) => LiteralUsable(s, props, b);
    case Match(slot, low, len) =>
      LenUsable(MATCH_LEN, PosState(s, props), len);
      DistUsable(len, slot, low);
    case ShortRep =>
    case Rep(index, len) => LenUsable(REP_LEN, PosState(s, props), len);
  }

  /** Every applicable packet sequence has a message the encoder can send. */
  lemma {:induction false} ChunkUsable(s: State, props: Props, ps: seq<Packet>)
    requires props.Valid() && AllApply(s, ps)
    ensures Usable(ChunkMessage(s, props, ps), PROB_COUNT)
    decreases |ps|
  {
    hide PacketMessage, Apply;
    if ps != [] {
      PacketUsable(s, props, ps[0]);
      ChunkUsable(Apply(s, ps[0]), props, ps[1..]);
    }
  }
}
