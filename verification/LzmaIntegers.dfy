/** Whole messages of the range coder: the round trip with a streaming reference encoder, and the
    integer and length codes of LZMA built from single bits. */
module LzmaIntegers {
  import opened Bits
  import opened RangeCoder

  // ----- decoding a message in its own contexts -----

  /** Decodes one event: the bit comes from the input, the context from the event. */
  function DecodeEvent(input: seq<byte>, d: Decoder, e: Event): (Decoder, nat)
    requires e.Coded? ==> e.ctx < |d.probs|
  {
    if e.Coded? then DecodeBit(input, d, e.ctx) else DecodeDirect(input, d)
  }

  lemma ProbsLength(input: seq<byte>, d: Decoder, e: Event)
    requires e.Coded? ==> e.ctx < |d.probs|
    ensures |DecodeEvent(input, d, e).0.probs| == |d.probs|
  {
  }

  /** The bits decoded in the contexts of m. */
  function Replay(input: seq<byte>, d: Decoder, m: Message): (Decoder, seq<nat>)
    requires Usable(m, |d.probs|)
    decreases |m|
  {
    if m == [] then (d, [])
    else
      ProbsLength(input, d, m[0]);
      var (d1, bit) := DecodeEvent(input, d, m[0]);
      var (d2, bits) := Replay(input, d1, m[1..]);
      (d2, [bit] + bits)
  }

  function BitsOf(m: Message): seq<nat> {
    seq(|m|, i requires 0 <= i < |m| => m[i].bit)
  }

  /** The decoder is in step with an encoder that goes on to send m, and is to end in the given state. */
  ghost predicate InStep(input: seq<byte>, d: Decoder, m: Message, end: Finish) {
    Carries(input, d, m) && ProbsOk(d.probs) && d.range < WORD && EndOf(d, m) == end
  }

  lemma DecodeEventInverts(input: seq<byte>, d: Decoder, e: Event, rest: Message, end: Finish)
    requires InStep(input, d, [e] + rest, end)
    ensures e.Coded? ==> e.ctx < |d.probs|
    ensures DecodeEvent(input, d, e).1 == e.bit && InStep(input, DecodeEvent(input, d, e).0, rest, end)
    ensures |DecodeEvent(input, d, e).0.probs| == |d.probs|
  {
    var m := [e] + rest;
    assert m[0] == e && m[1..] == rest;
    if e.Coded? {
      DecodeBitInverts(input, d, m);
    } else {
      DecodeDirectInverts(input, d, m);
    }
  }

  /** The decoder returns the bits that were encoded, and is in step with what follows. */
  lemma {:induction false} RoundTrip(input: seq<byte>, d: Decoder, m: Message, rest: Message, end: Finish)
    requires InStep(input, d, m + rest, end)
    ensures Usable(m, |d.probs|)
    ensures Replay(input, d, m).1 == BitsOf(m) && InStep(input, Replay(input, d, m).0, rest, end)
    decreases |m|
  {
    assert Usable(m, |d.probs|) by {
      assert forall i: nat :: i < |m| ==> (m + rest)[i] == m[i];
    }
    hide InStep, DecodeBit, DecodeDirect;
    if m == [] {
      assert m + rest == rest;
    } else {
      assert m + rest == [m[0]] + (m[1..] + rest);
      DecodeEventInverts(input, d, m[0], m[1..] + rest, end);
      RoundTrip(input, DecodeEvent(input, d, m[0]).0, m[1..], rest, end);
    }
  }

  // ----- the streaming encoder -----

  /** The encoder that keeps the whole interval start as one unbounded number. */
  datatype Encoder = Encoder(low: nat, range: nat, digits: nat, probs: seq<nat>)

  function Emit(e: Encoder, ev: Event): Encoder
    requires ev.Coded? ==> ev.ctx < |e.probs|
  {
    var low := if e.range < TOP then 256 * e.low else e.low;
    var digits := if e.range < TOP then e.digits + 1 else e.digits;
    var (add, size) := Part(ScaledRange(e.range), e.probs, ev);
    Encoder(low + add, size, digits, Adapted(e.probs, ev))
  }

  function EmitAll(e: Encoder, m: Message): Encoder
    requires Usable(m, |e.probs|)
    decreases |m|
  {
    if m == [] then e else EmitAll(Emit(e, m[0]), m[1..])
  }

  lemma {:induction false} EmitAllIsEncode(e: Encoder, m: Message)
    requires Usable(m, |e.probs|)
    ensures var i := Encode(e.range, e.probs, m);
      var f := EmitAll(e, m);
      && f.low == Scale(e.low, i.digits) + i.lo && f.range == i.size && f.digits == e.digits + i.digits
      && f.probs == AdaptAll(e.probs, m)
    decreases |m|
  {
    if m != [] {
      var e1 := Emit(e, m[0]);
      EmitAllIsEncode(e1, m[1..]);
      var rest := Encode(e1.range, e1.probs, m[1..]);
      var add := Part(ScaledRange(e.range), e.probs, m[0]).0;
      ScaleAdd(if e.range < TOP then 256 * e.low else e.low, add, rest.digits);
      ScaleScale(e.low, 1, rest.digits);
    }
  }

  /** The state in which elf_uncompress_lzma_block starts a chunk at byte off: one byte is skipped,
      four are the code. */
  function Start(input: seq<byte>, off: nat, probs: seq<nat>): Decoder
    requires off + 5 <= |input|
  {
    Decoder(WORD - 1, Digits(input, off + 1, 4), off + 5, probs)
  }

  /** At a state reset every probability is one half.  The start is good unless all four bytes of the
      code are 0xff. */
  lemma StartGood(input: seq<byte>, off: nat, n: nat)
    requires off + 5 <= |input|
    ensures Good(Start(input, off, seq(n, _ => PROB_INIT))) <==> Digits(input, off + 1, 4) != WORD - 1
  {
    DigitsBound(input, off + 1, 4);
    assert Scale(1, 4) == WORD;
  }

  /** From the initial probabilities on, the invariants hold over every run with input left. */
  lemma StartRunKeeps(input: seq<byte>, off: nat, n: nat, ctxs: seq<nat>)
    requires off + 5 <= |input| && Digits(input, off + 1, 4) != WORD - 1
    requires Run(input, Start(input, off, seq(n, _ => PROB_INIT)), ctxs).off < |input|
    ensures Good(Run(input, Start(input, off, seq(n, _ => PROB_INIT)), ctxs))
  {
    StartGood(input, off, n);
    InputLeft(input, Start(input, off, seq(n, _ => PROB_INIT)), ctxs);
    RunKeeps(input, Start(input, off, seq(n, _ => PROB_INIT)), ctxs);
  }

  /** The encoder starts with the whole 32-bit range and four digits to send. */
  function StartEncoder(probs: seq<nat>): Encoder {
    Encoder(0, WORD - 1, 4, probs)
  }

  /** Where the encoder for m ends when it starts a chunk at byte off. */
  function Finished(off: nat, probs: seq<nat>, m: Message): Finish
    requires Usable(m, |probs|)
  {
    var e := EmitAll(StartEncoder(probs), m);
    Finish(off + 1 + e.digits, e.range, e.probs)
  }

  /** If the digits in the input are any number in the encoder's final interval, the decoder is in
      step with the message. */
  lemma StartInStep(input: seq<byte>, off: nat, probs: seq<nat>, m: Message)
    requires ProbsOk(probs) && Usable(m, |probs|)
    requires var e := EmitAll(StartEncoder(probs), m);
      off + 1 + e.digits <= |input| && e.low <= Digits(input, off + 1, e.digits) < e.low + e.range
    ensures off + 5 <= |input| && InStep(input, Start(input, off, probs), m, Finished(off, probs, m))
  {
    EmitAllIsEncode(StartEncoder(probs), m);
    var k := Encode(WORD - 1, probs, m).digits;
    ScaleZero(k);
    DigitsSplit(input, off + 1, 4, k);
  }

  lemma {:induction false} ScaleZero(n: nat)
    ensures Scale(0, n) == 0
  {
    if n > 0 {
      ScaleZero(n - 1);
    }
  }

  /** Encoding then decoding returns the bits, for every message and every choice of the number
      sent. */
  lemma EncoderRoundTrip(input: seq<byte>, off: nat, probs: seq<nat>, m: Message)
    requires ProbsOk(probs) && Usable(m, |probs|)
    requires var e := EmitAll(StartEncoder(probs), m);
      off + 1 + e.digits <= |input| && e.low <= Digits(input, off + 1, e.digits) < e.low + e.range
    ensures off + 5 <= |input| && Replay(input, Start(input, off, probs), m).1 == BitsOf(m)
  {
    StartInStep(input, off, probs, m);
    assert m + [] == m;
    RoundTrip(input, Start(input, off, probs), m, [], Finished(off, probs, m));
  }

  // ----- integers -----

  /** k bits of v below bit k, most significant first, in the contexts of a bit tree at base. */
  function MsbMessage(base: nat, sym: nat, k: nat, v: nat): Message
    decreases k
  {
    if k == 0 then []
    else
      var bit := if Bit(v, k - 1) then 1 else 0;
      [Coded(base + sym, bit)] + MsbMessage(base, 2 * sym + bit, k - 1, v)
  }

  /** The loop of elf_lzma_integer with k bits to go. */
  function DecodeMsb(input: seq<byte>, d: Decoder, base: nat, sym: nat, k: nat): (Decoder, nat)
    requires base + Shl(sym + 1, k) <= |d.probs| + 1
    decreases k
  {
    if k == 0 then (d, sym)
    else
      MsbContext(sym, k);
      var (d1, bit) := DecodeBit(input, d, base + sym);
      ShlMono(2 * sym + bit + 1, 2 * (sym + 1), k - 1);
      ShlTwice(sym + 1, k - 1);
      DecodeMsb(input, d1, base, 2 * sym + bit, k - 1)
  }

  lemma {:induction false} ShlTwice(x: nat, k: nat)
    ensures Shl(2 * x, k) == 2 * Shl(x, k)
  {
    if k > 0 {
      ShlTwice(x, k - 1);
    }
  }

  lemma {:induction false} MsbContext(sym: nat, k: nat)
    requires k > 0
    ensures sym + 1 < Shl(sym + 1, k)
  {
    if k > 1 {
      MsbContext(sym, k - 1);
    }
  }

  /** The result: the symbols read so far followed by the low k bits of v. */
  lemma {:induction false} DecodeMsbInverts(input: seq<byte>, d: Decoder, base: nat, sym: nat, k: nat, v: nat,
                                            rest: Message, end: Finish)
    requires base + Shl(sym + 1, k) <= |d.probs| + 1
    requires InStep(input, d, MsbMessage(base, sym, k, v) + rest, end)
    ensures var (d', r) := DecodeMsb(input, d, base, sym, k);
      r == Shl(sym, k) + Low(v, k) && InStep(input, d', rest, end) && |d'.probs| == |d.probs|
    decreases k
  {
    hide InStep, DecodeBit;
    if k == 0 {
      assert MsbMessage(base, sym, k, v) + rest == rest;
    } else {
      var bit := if Bit(v, k - 1) then 1 else 0;
      var tail := MsbMessage(base, 2 * sym + bit, k - 1, v);
      assert MsbMessage(base, sym, k, v) + rest == [Coded(base + sym, bit)] + (tail + rest);
      DecodeEventInverts(input, d, Coded(base + sym, bit), tail + rest, end);
      MsbContext(sym, k);
      ShlMono(2 * sym + bit + 1, 2 * (sym + 1), k - 1);
      ShlTwice(sym + 1, k - 1);
      DecodeMsbInverts(input, DecodeBit(input, d, base + sym).0, base, 2 * sym + bit, k - 1, v, rest, end);
      LowTop(v, k - 1);
      ShlTwice(sym, k - 1);
      ShlAdd(2 * sym, bit, k - 1);
      ShlOne(k - 1);
    }
  }

  lemma {:induction false} ShlOne(k: nat)
    ensures Shl(1, k) == Pow2(k) && Shl(0, k) == 0
  {
    if k > 0 {
      ShlOne(k - 1);
    }
  }

  /** k bits of v, least significant first. */
  function LsbMessage(base: nat, sym: nat, k: nat, v: nat): Message
    decreases k
  {
    if k == 0 then []
    else [Coded(base + sym, v % 2)] + LsbMessage(base, 2 * sym + v % 2, k - 1, v / 2)
  }

  /** The loop of elf_lzma_reverse_integer with k bits to go: the value of the remaining bits. */
  function DecodeLsb(input: seq<byte>, d: Decoder, base: nat, sym: nat, k: nat): (Decoder, nat)
    requires base + Shl(sym + 1, k) <= |d.probs| + 1
    decreases k
  {
    if k == 0 then (d, 0)
    else
      MsbContext(sym, k);
      var (d1, bit) := DecodeBit(input, d, base + sym);
      ShlMono(2 * sym + bit + 1, 2 * (sym + 1), k - 1);
      ShlTwice(sym + 1, k - 1);
      var (d2, high) := DecodeLsb(input, d1, base, 2 * sym + bit, k - 1);
      (d2, bit + 2 * high)
  }

  lemma {:induction false} DecodeLsbInverts(input: seq<byte>, d: Decoder, base: nat, sym: nat, k: nat, v: nat,
                                            rest: Message, end: Finish)
    requires base + Shl(sym + 1, k) <= |d.probs| + 1
    requires InStep(input, d, LsbMessage(base, sym, k, v) + rest, end)
    ensures var (d', r) := DecodeLsb(input, d, base, sym, k);
      r == Low(v, k) && InStep(input, d', rest, end) && |d'.probs| == |d.probs|
    decreases k
  {
    hide InStep, DecodeBit;
    if k == 0 {
      assert LsbMessage(base, sym, k, v) + rest == rest;
    } else {
      var bit := v % 2;
      var tail := LsbMessage(base, 2 * sym + bit, k - 1, v / 2);
      assert LsbMessage(base, sym, k, v) + rest == [Coded(base + sym, bit)] + (tail + rest);
      DecodeEventInverts(input, d, Coded(base + sym, bit), tail + rest, end);
      MsbContext(sym, k);
      ShlMono(2 * sym + bit + 1, 2 * (sym + 1), k - 1);
      ShlTwice(sym + 1, k - 1);
      DecodeLsbInverts(input, DecodeBit(input, d, base + sym).0, base, 2 * sym + bit, k - 1, v / 2, rest, end);
    }
  }

  // ----- every message can be sent -----

  lemma UsableConcat(a: Message, b: Message, n: nat)
    requires Usable(a, n) && Usable(b, n)
    ensures Usable(a + b, n)
  {
  }

  lemma UsableCons(e: Event, m: Message, n: nat)
    requires e.bit < 2 && (e.Coded? ==> e.ctx < n) && Usable(m, n)
    ensures Usable([e] + m, n)
  {
  }

  lemma {:induction false} MsbUsable(base: nat, sym: nat, k: nat, v: nat, n: nat)
    requires base + Shl(sym + 1, k) <= n + 1
    ensures Usable(MsbMessage(base, sym, k, v), n)
    decreases k
  {
    if k > 0 {
      var bit := if Bit(v, k - 1) then 1 else 0;
      MsbContext(sym, k);
      ShlMono(2 * sym + bit + 1, 2 * (sym + 1), k - 1);
      ShlTwice(sym + 1, k - 1);
      MsbUsable(base, 2 * sym + bit, k - 1, v, n);
    }
  }

  lemma {:induction false} LsbUsable(base: nat, sym: nat, k: nat, v: nat, n: nat)
    requires base + Shl(sym + 1, k) <= n + 1
    ensures Usable(LsbMessage(base, sym, k, v), n)
    decreases k
  {
    if k > 0 {
      MsbContext(sym, k);
      ShlMono(2 * sym + v % 2 + 1, 2 * (sym + 1), k - 1);
      ShlTwice(sym + 1, k - 1);
      LsbUsable(base, 2 * sym + v % 2, k - 1, v / 2, n);
    }
  }

  /** The encoder's interval never becomes empty, so there is always a number to send. */
  lemma {:induction false} EncoderOpen(e: Encoder, m: Message)
    requires Usable(m, |e.probs|) && ProbsOk(e.probs) && 0x1_0000 <= e.range < WORD
    ensures 0x1_0000 <= EmitAll(e, m).range < WORD
    decreases |m|
  {
    if m != [] {
      AdaptedOk(e.probs, m[0]);
      if m[0].Coded? {
        BoundInside(ScaledRange(e.range), e.probs[m[0].ctx]);
      }
      EncoderOpen(Emit(e, m[0]), m[1..]);
    }
  }
}
