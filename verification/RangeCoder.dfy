/** The LZMA adaptive binary range decoder, as functions on a decoder state, and the reference
    encoder it inverts.  The encoder narrows an interval of unbounded integers; the decoder tracks
    the position of the transmitted number inside that interval with 32-bit words. */
module RangeCoder {
  import opened Bits

  const TOP: nat := 0x100_0000
  const WORD: nat := 0x1_0000_0000
  const PROB_INIT: nat := 1024
  const PROB_MIN: nat := 31
  const PROB_MAX: nat := 2017

  // ----- the decoder -----

  datatype Decoder = Decoder(range: nat, code: nat, off: nat, probs: seq<nat>)

  function ByteOf(input: seq<byte>, i: nat): nat
    requires i < |input|
  {
    input[i]
  }

  /** elf_lzma_range_normalize.  Without input left it does nothing. */
  function Normalize(input: seq<byte>, d: Decoder): Decoder {
    if d.range >= TOP || d.off >= |input| then d
    else d.(range := 256 * d.range, code := (256 * d.code + ByteOf(input, d.off)) % WORD, off := d.off + 1)
  }

  function Bound(range: nat, prob: nat): nat {
    range / 2048 * prob
  }

  function Adapt(prob: nat, bit: nat): nat {
    if bit == 0 then if prob <= 2048 then prob + (2048 - prob) / 32 else prob
    else prob - prob / 32
  }

  /** The interval and the probability after a bit. */
  function Narrow(d: Decoder, ctx: nat, bit: nat): Decoder
    requires ctx < |d.probs|
  {
    var p := d.probs[ctx];
    var b := Bound(d.range, p);
    if bit == 0 then d.(range := b, probs := d.probs[ctx := Adapt(p, 0)])
    else Decoder(if d.range >= b then d.range - b else 0, if d.code >= b then d.code - b else 0, d.off,
                 d.probs[ctx := Adapt(p, 1)])
  }

  /** elf_lzma_bit. */
  function DecodeBit(input: seq<byte>, d: Decoder, ctx: nat): (Decoder, nat)
    requires ctx < |d.probs|
  {
    var n := Normalize(input, d);
    var bit := if n.code < Bound(n.range, n.probs[ctx]) then 0 else 1;
    (Narrow(n, ctx, bit), bit)
  }

  /** One equiprobable bit, as the distance decoder reads them. */
  function DecodeDirect(input: seq<byte>, d: Decoder): (Decoder, nat) {
    var n := Normalize(input, d);
    var half := n.range / 2;
    if n.code < half then (n.(range := half), 0) else (n.(range := half, code := n.code - half), 1)
  }

  // ----- invariants over every run -----

  predicate ProbOk(p: nat) {
    PROB_MIN <= p <= PROB_MAX
  }

  predicate ProbsOk(probs: seq<nat>) {
    forall i: nat :: i < |probs| ==> ProbOk(probs[i])
  }

  /** Before normalisation: at least 16 significant bits, and the code inside the range. */
  predicate Good(d: Decoder) {
    0x1_0000 <= d.range < WORD && d.code < d.range && ProbsOk(d.probs)
  }

  lemma AdaptKeeps(p: nat, bit: nat)
    requires ProbOk(p) && bit < 2
    ensures ProbOk(Adapt(p, bit))
  {
  }

  /** One normalisation step brings the range back to at least 2^24, in 32 bits, and keeps the code
      inside it; the 32-bit shift of the code loses nothing. */
  lemma NormalizeRestores(input: seq<byte>, d: Decoder)
    requires Good(d) && (d.off < |input| || d.range >= TOP)
    ensures Good(Normalize(input, d)) && Normalize(input, d).range >= TOP
    ensures d.range < TOP ==> 256 * d.code + ByteOf(input, d.off) < WORD
  {
  }

  lemma BoundInside(range: nat, p: nat)
    requires TOP <= range < WORD && ProbOk(p)
    ensures 0x1_0000 <= Bound(range, p) && Bound(range, p) + 0x1_0000 <= range
  {
    var q := range / 2048;
    assert q * PROB_MIN <= q * p <= q * PROB_MAX;
  }

  /** If the next normalisation needs a byte, there is one. */
  predicate HasInput(input: seq<byte>, d: Decoder) {
    d.range >= TOP || d.off < |input|
  }

  /** Over a bit whose normalisation has its input: the bound splits the range, the probabilities
      stay in [31, 2017], and the code stays inside the range. */
  lemma BitKeeps(input: seq<byte>, d: Decoder, ctx: nat)
    requires Good(d) && ctx < |d.probs| && HasInput(input, d)
    ensures var n := Normalize(input, d);
      n.range >= TOP && 0 < Bound(n.range, n.probs[ctx]) < n.range
    ensures Good(DecodeBit(input, d, ctx).0) && |DecodeBit(input, d, ctx).0.probs| == |d.probs|
    ensures d.off <= DecodeBit(input, d, ctx).0.off <= d.off + 1
  {
    NormalizeRestores(input, d);
    var n := Normalize(input, d);
    BoundInside(n.range, n.probs[ctx]);
    AdaptKeeps(n.probs[ctx], 0);
    AdaptKeeps(n.probs[ctx], 1);
  }

  /** The state after decoding a bit in each of the contexts in turn. */
  function Run(input: seq<byte>, d: Decoder, ctxs: seq<nat>): Decoder
    decreases |ctxs|
  {
    if ctxs == [] || ctxs[0] >= |d.probs| then d else Run(input, DecodeBit(input, d, ctxs[0]).0, ctxs[1..])
  }

  /** No normalisation of the run wants a byte that is not there. */
  predicate Fed(input: seq<byte>, d: Decoder, ctxs: seq<nat>)
    decreases |ctxs|
  {
    ctxs == [] || ctxs[0] >= |d.probs| || (HasInput(input, d) && Fed(input, DecodeBit(input, d, ctxs[0]).0, ctxs[1..]))
  }

  /** The invariants hold over every run in which every normalisation has its input. */
  lemma {:induction false} RunKeeps(input: seq<byte>, d: Decoder, ctxs: seq<nat>)
    requires Good(d) && Fed(input, d, ctxs)
    ensures Good(Run(input, d, ctxs)) && |Run(input, d, ctxs).probs| == |d.probs|
    decreases |ctxs|
  {
    if ctxs != [] && ctxs[0] < |d.probs| {
      BitKeeps(input, d, ctxs[0]);
      RunKeeps(input, DecodeBit(input, d, ctxs[0]).0, ctxs[1..]);
    }
  }

  /** A run that leaves input unread never wanted more than there was. */
  lemma {:induction false} InputLeft(input: seq<byte>, d: Decoder, ctxs: seq<nat>)
    ensures Run(input, d, ctxs).off >= d.off
    ensures Run(input, d, ctxs).off < |input| ==> Fed(input, d, ctxs)
    decreases |ctxs|
  {
    if ctxs != [] && ctxs[0] < |d.probs| {
      InputLeft(input, DecodeBit(input, d, ctxs[0]).0, ctxs[1..]);
    }
  }

  /** Probabilities stay in range even when the input runs out. */
  lemma {:induction false} ProbsKeep(input: seq<byte>, d: Decoder, ctxs: seq<nat>)
    requires ProbsOk(d.probs)
    ensures ProbsOk(Run(input, d, ctxs).probs)
    decreases |ctxs|
  {
    if ctxs != [] && ctxs[0] < |d.probs| {
      AdaptKeeps(d.probs[ctxs[0]], 0);
      AdaptKeeps(d.probs[ctxs[0]], 1);
      ProbsKeep(input, DecodeBit(input, d, ctxs[0]).0, ctxs[1..]);
    }
  }

  // ----- base-256 numbers -----

  /** x times 256^n. */
  function Scale(x: nat, n: nat): nat {
    if n == 0 then x else 256 * Scale(x, n - 1)
  }

  lemma {:induction false} ScaleAdd(x: nat, y: nat, n: nat)
    ensures Scale(x + y, n) == Scale(x, n) + Scale(y, n)
  {
    if n > 0 {
      ScaleAdd(x, y, n - 1);
    }
  }

  lemma {:induction false} ScaleMono(x: nat, y: nat, n: nat)
    ensures x <= y <==> Scale(x, n) <= Scale(y, n)
  {
    if n > 0 {
      ScaleMono(x, y, n - 1);
    }
  }

  lemma {:induction false} ScaleScale(x: nat, a: nat, b: nat)
    ensures Scale(Scale(x, a), b) == Scale(x, a + b)
    decreases b
  {
    if b > 0 {
      ScaleScale(x, a, b - 1);
    }
  }

  /** The big-endian number in n bytes of the input at off. */
  function Digits(input: seq<byte>, off: nat, n: nat): nat
    requires off + n <= |input|
  {
    if n == 0 then 0 else 256 * Digits(input, off, n - 1) + ByteOf(input, off + n - 1)
  }

  lemma {:induction false} DigitsFront(input: seq<byte>, off: nat, n: nat)
    requires off + n + 1 <= |input|
    ensures Digits(input, off, n + 1) == Scale(ByteOf(input, off), n) + Digits(input, off + 1, n)
  {
    if n > 0 {
      DigitsFront(input, off, n - 1);
    }
  }

  lemma {:induction false} DigitsBound(input: seq<byte>, off: nat, n: nat)
    requires off + n <= |input|
    ensures Digits(input, off, n) < Scale(1, n)
  {
    if n > 0 {
      DigitsBound(input, off, n - 1);
    }
  }

  lemma {:induction false} DigitsSplit(input: seq<byte>, off: nat, a: nat, b: nat)
    requires off + a + b <= |input|
    ensures Digits(input, off, a + b) == Scale(Digits(input, off, a), b) + Digits(input, off + a, b)
    decreases b
  {
    if b > 0 {
      DigitsSplit(input, off, a, b - 1);
    }
  }

  // ----- the reference encoder -----

  /** A bit coded with the probability of a context, or an equiprobable bit. */
  datatype Event = Coded(ctx: nat, bit: nat) | Direct(bit: nat)

  type Message = seq<Event>

  predicate Usable(m: Message, n: nat) {
    forall i: nat :: i < |m| ==> m[i].bit < 2 && (m[i].Coded? ==> m[i].ctx < n)
  }

  /** An interval relative to the start of the current one: its offset and size after the current
      interval has been scaled by 256^digits. */
  datatype Interval = Interval(lo: nat, size: nat, digits: nat)

  function ScaledRange(range: nat): nat {
    if range < TOP then 256 * range else range
  }

  /** Offset and size of the part of a range an event selects. */
  function Part(range: nat, probs: seq<nat>, e: Event): (nat, nat)
    requires e.Coded? ==> e.ctx < |probs|
  {
    match e
    case Coded(ctx, bit) =>
      var b := Bound(range, probs[ctx]);
      if bit == 0 then (0, b) else (b, if range >= b then range - b else 0)
    case Direct(bit) =>
      if bit == 0 then (0, range / 2) else (range / 2, range / 2)
  }

  function Adapted(probs: seq<nat>, e: Event): seq<nat>
    requires e.Coded? ==> e.ctx < |probs|
  {
    if e.Coded? then probs[e.ctx := Adapt(probs[e.ctx], e.bit)] else probs
  }

  /** The interval of the numbers that encode message m, starting from an interval of size range. */
  function Encode(range: nat, probs: seq<nat>, m: Message): Interval
    requires Usable(m, |probs|)
    decreases |m|
  {
    if m == [] then Interval(0, range, 0)
    else
      var r := ScaledRange(range);
      var (add, size) := Part(r, probs, m[0]);
      var rest := Encode(size, Adapted(probs, m[0]), m[1..]);
      Interval(Scale(add, rest.digits) + rest.lo, rest.size, rest.digits + if range < TOP then 1 else 0)
  }

  /** The probabilities after a message. */
  function AdaptAll(probs: seq<nat>, m: Message): seq<nat>
    requires Usable(m, |probs|)
    decreases |m|
  {
    if m == [] then probs else AdaptAll(Adapted(probs, m[0]), m[1..])
  }

  /** The state in which decoding a message ends. */
  datatype Finish = Finish(off: nat, range: nat, probs: seq<nat>)

  /** The offset just after the digits that message m still takes, and the range and probabilities
      that it leaves. */
  function EndOf(d: Decoder, m: Message): Finish
    requires Usable(m, |d.probs|)
  {
    var e := Encode(d.range, d.probs, m);
    Finish(d.off + e.digits, e.size, AdaptAll(d.probs, m))
  }

  /** The offset after a last normalisation. */
  function OffAfter(input: seq<byte>, end: Finish): nat {
    end.off + if end.range < TOP && end.off < |input| then 1 else 0
  }

  /** The number in the input from here on lies in the interval of message m. */
  ghost predicate Carries(input: seq<byte>, d: Decoder, m: Message) {
    && Usable(m, |d.probs|)
    && var e := Encode(d.range, d.probs, m);
    && d.off + e.digits <= |input|
    && e.lo <= Scale(d.code, e.digits) + Digits(input, d.off, e.digits) < e.lo + e.size
  }

  // ----- the decoder inverts the encoder -----

  lemma BoundAtMost(range: nat, p: nat)
    requires ProbOk(p)
    ensures Bound(range, p) <= range
  {
    var q := range / 2048;
    assert q * p <= q * PROB_MAX;
  }

  lemma AdaptedOk(probs: seq<nat>, e: Event)
    requires ProbsOk(probs) && (e.Coded? ==> e.ctx < |probs|) && e.bit < 2
    ensures ProbsOk(Adapted(probs, e)) && |Adapted(probs, e)| == |probs|
  {
    if e.Coded? {
      AdaptKeeps(probs[e.ctx], e.bit);
    }
  }

  /** The parts of a range lie inside it. */
  lemma PartInside(range: nat, probs: seq<nat>, e: Event)
    requires ProbsOk(probs) && (e.Coded? ==> e.ctx < |probs|)
    ensures Part(range, probs, e).0 + Part(range, probs, e).1 <= range
  {
    if e.Coded? {
      BoundAtMost(range, probs[e.ctx]);
    }
  }

  /** The interval of a message lies inside the interval it starts from. */
  lemma {:induction false} EncodeInside(range: nat, probs: seq<nat>, m: Message)
    requires Usable(m, |probs|) && ProbsOk(probs)
    ensures var e := Encode(range, probs, m); e.lo + e.size <= Scale(range, e.digits)
    decreases |m|
  {
    if m != [] {
      var r := ScaledRange(range);
      var (add, size) := Part(r, probs, m[0]);
      var probs' := Adapted(probs, m[0]);
      AdaptedOk(probs, m[0]);
      PartInside(r, probs, m[0]);
      EncodeInside(size, probs', m[1..]);
      var rest := Encode(size, probs', m[1..]);
      ScaleAdd(add, size, rest.digits);
      ScaleMono(add + size, r, rest.digits);
      ScaleScale(range, 1, rest.digits);
    }
  }

  /** A number that carries a message lies inside the range. */
  lemma CarriesCode(input: seq<byte>, d: Decoder, m: Message)
    requires Carries(input, d, m) && ProbsOk(d.probs)
    ensures d.code < d.range
  {
    var e := Encode(d.range, d.probs, m);
    EncodeInside(d.range, d.probs, m);
    ScaleMono(d.range, d.code, e.digits);
  }

  /** Shifting a digit in does not change the number. */
  lemma ShiftIn(input: seq<byte>, off: nat, code: nat, k: nat)
    requires off + k + 1 <= |input|
    ensures Scale(256 * code + ByteOf(input, off), k) + Digits(input, off + 1, k)
            == Scale(code, k + 1) + Digits(input, off, k + 1)
  {
    DigitsFront(input, off, k);
    ScaleAdd(256 * code, ByteOf(input, off), k);
    ScaleScale(code, 1, k);
  }

  /** The number at this point of the input lies in the interval rest of the part at add. */
  ghost predicate Inside(input: seq<byte>, n: Decoder, add: nat, rest: Interval) {
    var k := rest.digits;
    && n.off + k <= |input|
    && Scale(add, k) + rest.lo <= Scale(n.code, k) + Digits(input, n.off, k) < Scale(add, k) + rest.lo + rest.size
  }

  /** The interval of what follows the first event of a message. */
  function Rest(d: Decoder, m: Message): Interval
    requires m != [] && Usable(m, |d.probs|)
  {
    Encode(Part(ScaledRange(d.range), d.probs, m[0]).1, Adapted(d.probs, m[0]), m[1..])
  }

  /** Normalising does not change the number the decoder looks at. */
  lemma NormalizeCarries(input: seq<byte>, d: Decoder, m: Message)
    requires Carries(input, d, m) && ProbsOk(d.probs) && m != [] && d.range < WORD
    ensures var n := Normalize(input, d);
      && n.range == ScaledRange(d.range) && n.probs == d.probs
      && Inside(input, n, Part(n.range, d.probs, m[0]).0, Rest(d, m))
  {
    CarriesCode(input, d, m);
    if d.range < TOP {
      ShiftIn(input, d.off, d.code, Rest(d, m).digits);
    }
  }

  /** The part of the range in which the number lies. */
  lemma PartFound(input: seq<byte>, n: Decoder, add: nat, rest: Interval, size: nat)
    requires rest.lo + rest.size <= Scale(size, rest.digits) && Inside(input, n, add, rest)
    ensures add <= n.code < add + size
    ensures rest.lo <= Scale(n.code - add, rest.digits) + Digits(input, n.off, rest.digits) < rest.lo + rest.size
  {
    var k := rest.digits;
    DigitsBound(input, n.off, k);
    ScaleAdd(n.code, 1, k);
    ScaleAdd(add, size, k);
    ScaleMono(add + size, n.code, k);
    ScaleMono(n.code + 1, add, k);
    ScaleAdd(add, n.code - add, k);
  }

  /** Decoding in the context of the next event yields its bit and leaves the rest of the message. */
  lemma DecodeBitInverts(input: seq<byte>, d: Decoder, m: Message)
    requires Carries(input, d, m) && ProbsOk(d.probs) && d.range < WORD && m != [] && m[0].Coded?
    ensures var (d', bit) := DecodeBit(input, d, m[0].ctx);
      && bit == m[0].bit && Carries(input, d', m[1..]) && ProbsOk(d'.probs) && d'.range < WORD
      && EndOf(d', m[1..]) == EndOf(d, m)
  {
    hide Scale, Digits, Bound;
    NormalizeCarries(input, d, m);
    var n := Normalize(input, d);
    var (add, size) := Part(n.range, d.probs, m[0]);
    AdaptedOk(d.probs, m[0]);
    EncodeInside(size, Adapted(d.probs, m[0]), m[1..]);
    BoundAtMost(n.range, d.probs[m[0].ctx]);
    PartFound(input, n, add, Rest(d, m), size);
  }

  lemma DecodeDirectInverts(input: seq<byte>, d: Decoder, m: Message)
    requires Carries(input, d, m) && ProbsOk(d.probs) && d.range < WORD && m != [] && m[0].Direct?
    ensures Normalize(input, d).code < Normalize(input, d).range
    ensures var (d', bit) := DecodeDirect(input, d);
      && bit == m[0].bit && Carries(input, d', m[1..]) && d'.probs == d.probs && d'.range < WORD
      && EndOf(d', m[1..]) == EndOf(d, m)
  {
    hide Scale, Digits, ProbsOk;
    NormalizeCarries(input, d, m);
    var n := Normalize(input, d);
    var (add, size) := Part(n.range, d.probs, m[0]);
    EncodeInside(size, d.probs, m[1..]);
    PartFound(input, n, add, Rest(d, m), size);
  }
}
