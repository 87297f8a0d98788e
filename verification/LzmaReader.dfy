/** The range decoder as the C code runs it: range, code and offset updated in place, one array of
    adaptive probabilities, and the bit, integer and length readers on top. */
module LzmaReader {
  import opened Bits
  import opened RangeCoder
  import opened LzmaIntegers

  // ----- layout of the probability array -----

  const STATES: nat := 12
  const POS_STATES: nat := 16
  const IS_MATCH: nat := 0
  const IS_REP: nat := IS_MATCH + STATES * POS_STATES
  const IS_REP0: nat := IS_REP + STATES
  const IS_REP1: nat := IS_REP0 + STATES
  const IS_REP2: nat := IS_REP1 + STATES
  const IS_REP0_LONG: nat := IS_REP2 + STATES
  const DIST_SLOT: nat := IS_REP0_LONG + STATES * POS_STATES
  const DIST_SPECIAL: nat := DIST_SLOT + 4 * 64
  const DIST_ALIGN: nat := DIST_SPECIAL + 128 - 14
  const MATCH_LEN: nat := DIST_ALIGN + 16
  const LEN_SIZE: nat := 2 + 2 * POS_STATES * 8 + 256
  const REP_LEN: nat := MATCH_LEN + LEN_SIZE
  const LITERAL: nat := REP_LEN + LEN_SIZE
  const LITERAL_SIZE: nat := 0x300
  const PROB_COUNT: nat := LITERAL + 16 * LITERAL_SIZE

  lemma ProbCount()
    ensures PROB_COUNT == 1846 + 16 * 0x300
  {
  }

  class RangeDecoder {
    const input: seq<byte>
    const probs: array<nat>
    const start: nat
    var off: nat
    var range: nat
    var code: nat

    ghost function State(): Decoder
      reads this, probs
    {
      Decoder(range, code, off, probs[..])
    }

    ghost predicate Valid()
      reads this, probs
    {
      probs.Length == PROB_COUNT && range < WORD && code < WORD && ProbsOk(probs[..]) && start <= off
    }

    /** Starts a chunk at byte off: one byte is skipped, four are the code.  A state reset sets
        every probability to one half. */
    constructor (input: seq<byte>, off: nat, probs: array<nat>)
      requires off + 5 <= |input| && probs.Length == PROB_COUNT && ProbsOk(probs[..])
      ensures Valid() && this.input == input && this.probs == probs && start == off + 5
      ensures State() == Start(input, off, probs[..])
    {
      this.input, this.probs, this.start, this.off := input, probs, off + 5, off + 5;
      range := WORD - 1;
      code := 0x100_0000 * ByteOf(input, off + 1) + 0x1_0000 * ByteOf(input, off + 2)
              + 0x100 * ByteOf(input, off + 3) + ByteOf(input, off + 4);
      new;
      assert Digits(input, off + 1, 1) == ByteOf(input, off + 1);
      assert Digits(input, off + 1, 2) == 0x100 * ByteOf(input, off + 1) + ByteOf(input, off + 2);
      assert code == Digits(input, off + 1, 4);
    }

    method NormalizeRange()
      requires Valid()
      modifies `off, `range, `code
      ensures Valid() && State() == Normalize(input, old(State()))
    {
      if range < TOP {
        if off >= |input| {
          return;
        }
        WrapOnce(256 * code, ByteOf(input, off));
        range := 256 * range;
        code := 256 * code % WORD;
        code := (code + ByteOf(input, off)) % WORD;
        off := off + 1;
      }
    }

    method ReadBit(ctx: nat) returns (bit: nat)
      requires Valid() && ctx < PROB_COUNT
      modifies this, probs
      ensures Valid() && bit < 2 && (State(), bit) == DecodeBit(input, old(State()), ctx)
    {
      NormalizeRange();
      var p := probs[ctx];
      AdaptKeeps(p, 0);
      AdaptKeeps(p, 1);
      BoundAtMost(range, p);
      var bound := range / 2048 * p;
      if code < bound {
        range := bound;
        probs[ctx] := p + (2048 - p) / 32;
        bit := 0;
      } else {
        range := range - bound;
        code := code - bound;
        probs[ctx] := p - p / 32;
        bit := 1;
      }
    }

    /** The branch-free bit of the distance decoder: the sign of a 32-bit difference decides.  Inside
        the range that is the comparison of the specified bit. */
    method ReadDirect() returns (bit: nat)
      requires Valid()
      modifies `off, `range, `code
      ensures Valid() && bit < 2
      ensures var n := Normalize(input, old(State())); n.code < n.range ==> (State(), bit) == DecodeDirect(input, old(State()))
      ensures var n := Normalize(input, old(State()));
        var diff := (n.code + WORD - n.range / 2) % WORD;
        bit == (if diff < 0x8000_0000 then 1 else 0)
        && State() == n.(range := n.range / 2, code := if bit == 1 then diff else n.code)
    {
      NormalizeRange();
      DirectStep(range, code);
      range := range / 2;
      code := (code + WORD - range) % WORD;
      var mask := if code / 0x8000_0000 == 1 then WORD - 1 else 0;
      code := (code + if mask == 0 then 0 else range) % WORD;
      bit := (mask + 1) % WORD;
    }

    /** Reads the next coded bit; in step with an encoder it is the bit that was sent. */
    method NextBit(ctx: nat, ghost bit: nat, ghost rest: Message, ghost end: Finish) returns (r: nat)
      requires Valid() && ctx < PROB_COUNT
      modifies this, probs
      ensures Valid() && r < 2
      ensures old(InStep(input, State(), [Coded(ctx, bit)] + rest, end)) ==> r == bit && InStep(input, State(), rest, end)
    {
      ghost var d := State();
      r := ReadBit(ctx);
      if InStep(input, d, [Coded(ctx, bit)] + rest, end) {
        DecodeEventInverts(input, d, Coded(ctx, bit), rest, end);
      }
    }

    method NextDirect(ghost bit: nat, ghost rest: Message, ghost end: Finish) returns (r: nat)
      requires Valid()
      modifies `off, `range, `code
      ensures Valid() && r < 2
      ensures old(InStep(input, State(), [Direct(bit)] + rest, end)) ==> r == bit && InStep(input, State(), rest, end)
    {
      ghost var d := State();
      r := ReadDirect();
      if InStep(input, d, [Direct(bit)] + rest, end) {
        DecodeDirectInverts(input, d, [Direct(bit)] + rest);
        DecodeEventInverts(input, d, Direct(bit), rest, end);
      }
    }

    /** elf_lzma_integer. */
    method ReadInteger(base: nat, bits: nat, ghost v: nat, ghost rest: Message, ghost end: Finish) returns (r: nat)
      requires Valid() && base + Shl(2, bits) <= PROB_COUNT + 1
      modifies this, probs
      ensures Valid() && r < Pow2(bits)
      ensures (State(), Pow2(bits) + r) == DecodeMsb(input, old(State()), base, 1, bits)
      ensures old(InStep(input, State(), MsbMessage(base, 1, bits, v) + rest, end)) ==> r == Low(v, bits) && InStep(input, State(), rest, end)
    {
      hide InStep, DecodeBit;
      ghost var d := State();
      var sym: nat := 1;
      var i: nat := 0;
      ShlOne(bits);
      while i < bits
        invariant i <= bits && Valid() && Pow2(i) <= sym < 2 * Pow2(i)
        invariant base + Shl(sym + 1, bits - i) <= PROB_COUNT + 1
        invariant DecodeMsb(input, State(), base, sym, bits - i) == DecodeMsb(input, d, base, 1, bits)
      {
        MsbContext(sym, bits - i);
        var bit := ReadBit(base + sym);
        NextContext(sym, bit, bits - i - 1);
        sym := 2 * sym + bit;
        i := i + 1;
      }
      r := sym - Pow2(bits);
      if InStep(input, d, MsbMessage(base, 1, bits, v) + rest, end) {
        DecodeMsbInverts(input, d, base, 1, bits, v, rest, end);
      }
    }

    /** elf_lzma_reverse_integer. */
    method ReadReverse(base: nat, bits: nat, ghost v: nat, ghost rest: Message, ghost end: Finish) returns (r: nat)
      requires Valid() && base + Shl(2, bits) <= PROB_COUNT + 1
      modifies this, probs
      ensures Valid() && (State(), r) == DecodeLsb(input, old(State()), base, 1, bits)
      ensures old(InStep(input, State(), LsbMessage(base, 1, bits, v) + rest, end)) ==> r == Low(v, bits) && InStep(input, State(), rest, end)
    {
      hide InStep, DecodeBit, Pow2, Shl, MsbMessage, LsbMessage;
      ghost var d := State();
      ghost var goal := DecodeLsb(input, d, base, 1, bits);
      var sym: nat := 1;
      var i: nat := 0;
      r := 0;
      LsbFirst(bits, goal.1);
      while i < bits
        invariant i <= bits && Valid()
        invariant base + Shl(sym + 1, bits - i) <= PROB_COUNT + 1
        invariant var (e, high) := DecodeLsb(input, State(), base, sym, bits - i); e == goal.0 && r + Shl(high, i) == goal.1
      {
        ghost var k := bits - i - 1;
        MsbContext(sym, bits - i);
        var bit := ReadBit(base + sym);
        NextContext(sym, bit, k);
        LsbStep(bit, DecodeLsb(input, State(), base, 2 * sym + bit, k).1, i);
        sym := 2 * sym + bit;
        r := r + Shl(bit, i);
        i := i + 1;
      }
      ShlOne(bits);
      if InStep(input, d, LsbMessage(base, 1, bits, v) + rest, end) {
        DecodeLsbInverts(input, d, base, 1, bits, v, rest, end);
      }
    }
  }

  /** A word may be wrapped before a byte is added. */
  lemma WrapOnce(x: nat, b: nat)
    ensures (x % WORD + b) % WORD == (x + b) % WORD
  {
    var a := x % WORD + b;
    DivModUnique(x + b, WORD, x / WORD + a / WORD, a % WORD);
  }

  /** Subtracting with a mask made from the sign bit. */
  lemma DirectStep(range: nat, code: nat)
    requires range < WORD && code < WORD
    ensures var half := range / 2;
      var c := (code + WORD - half) % WORD;
      var mask := if c / 0x8000_0000 == 1 then WORD - 1 else 0;
      && (mask + 1) % WORD == (if c < 0x8000_0000 then 1 else 0)
      && (c + if mask == 0 then 0 else half) % WORD == (if c < 0x8000_0000 then c else code)
      && (code < range ==>
            ((c + if mask == 0 then 0 else half) % WORD, (mask + 1) % WORD) == if code < half then (code, 0) else (code - half, 1))
  {
  }

  /** The contexts of a bit tree below the next symbol are among those below sym. */
  lemma NextContext(sym: nat, bit: nat, k: nat)
    requires bit < 2
    ensures Shl(2 * sym + bit + 1, k) <= Shl(sym + 1, k + 1)
  {
    ShlMono(2 * sym + bit + 1, 2 * (sym + 1), k);
    ShlTwice(sym + 1, k);
  }

  lemma LsbFirst(bits: nat, high: nat)
    ensures Shl(high, 0) == high && Shl(1 + 1, bits) == Shl(2, bits)
  {
  }

  lemma LsbStep(bit: nat, high: nat, i: nat)
    ensures Shl(bit + 2 * high, i) == Shl(bit, i) + Shl(high, i + 1)
  {
    ShlAdd(bit, 2 * high, i);
    ShlTwice(high, i);
  }
}
