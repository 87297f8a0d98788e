/** Whole LZMA2 blocks, byte by byte: eight times the letter a, as a literal and a repeat of seven; the same
    once more after each kind of reset; and bytes that are not packed. */
module LzmaExample {
  import opened Bits
  import opened MatchCopy
  import opened RangeCoder
  import opened LzmaIntegers
  import opened LzmaReader
  import opened LzmaPackets
  import opened LzmaChunk
  import opened LzmaBlock

  /** The range coder bytes. */
  const CODE: seq<byte> := [0, 0x30, 0xea, 0x7c, 0, 0, 0]

  const EIGHT: seq<byte> := [97, 97, 97, 97, 97, 97, 97, 97]

  function LetterProps(): Props {
    Props(3, 0, 2)
  }

  function LetterPackets(): seq<Packet> {
    [Lit(97), Rep(0, 7)]
  }

  /** The chunk behind a state reset (0xa0), one with new properties (0xc0), or one with a new dictionary
      as well (0xe0): 8 bytes from 7; lc = 3, lp = 0, pb = 2 are 0x5d. */
  function LetterChunk(reset: nat): Chunk {
    Packed(reset, LetterProps(), LetterPackets())
  }

  function Letters(reset: nat): seq<byte>
    requires 1 <= reset <= 3
  {
    (if reset == 1 then [0xa0, 0, 7, 0, 6] else if reset == 2 then [0xc0, 0, 7, 0, 6, 0x5d] else [0xe0, 0, 7, 0, 6, 0x5d]) + CODE
  }

  /** A block of two such chunks. */
  function Twice(reset: nat): (input: seq<byte>)
    requires 1 <= reset <= 3
  {
    Letters(3) + Letters(reset) + [0]
  }

  // ----- what the packets do -----

  /** A state in which the chunk is sent: just reset, at a multiple of four in the dictionary. */
  ghost predicate Ready(s: LzmaPackets.State) {
    s.Valid() && s.lstate == 0 && s.dist == [0, 0, 0, 0] && (|s.out| - s.dict) % 4 == 0
  }

  lemma SevenMore(out: seq<byte>)
    ensures Repeat(out + [97], 1, 7) == out + EIGHT
  {
    var r := out + EIGHT;
    assert r[..|out| + 1] == out + [97];
    assert forall k: nat :: |out| <= k < |r| ==> r[k] == EIGHT[k - |out|] == 97;
    RepeatUnique(out + [97], 1, 7, r);
  }

  /** The state between the packets. */
  function Middle(s: LzmaPackets.State): LzmaPackets.State {
    State(0, [0, 0, 0, 0], s.out + [97], s.dict)
  }

  lemma OneLetter(s: LzmaPackets.State)
    requires Ready(s)
    ensures Applies(s, Lit(97)) && Apply(s, Lit(97)) == Middle(s)
    ensures Applies(Middle(s), Rep(0, 7))
    ensures Apply(Middle(s), Rep(0, 7)) == State(8, [0, 0, 0, 0], s.out + EIGHT, s.dict)
  {
    hide Repeat;
    SevenMore(s.out);
    assert ToFront([0, 0, 0, 0], 0) == [0, 0, 0, 0];
  }

  lemma LettersApply(s: LzmaPackets.State)
    requires Ready(s)
    ensures AllApply(s, LetterPackets())
    ensures ApplyAll(s, LetterPackets()) == State(8, [0, 0, 0, 0], s.out + EIGHT, s.dict)
  {
    hide Apply, Applies, Ready;
    OneLetter(s);
    var ps := LetterPackets();
    assert ps[1..] == [Rep(0, 7)] && ps[1..][1..] == [];
  }

  // ----- the message -----

  /** With the literal coder at b.  No context occurs twice. */
  function LetterMessage(b: nat): Message {
    [Coded(0, 0),
     Coded(b + 1, 0), Coded(b + 2, 1), Coded(b + 5, 1), Coded(b + 11, 0),
     Coded(b + 22, 0), Coded(b + 44, 0), Coded(b + 88, 0), Coded(b + 176, 1),
     Coded(1, 1), Coded(192, 1), Coded(204, 0), Coded(241, 1),
     Coded(1332, 0), Coded(1343, 1), Coded(1345, 0), Coded(1348, 1)]
  }

  lemma MsbNext(base: nat, sym: nat, k: nat, v: nat, bit: nat, rest: Message) returns (m: Message)
    requires k > 0 && bit == (if Bit(v, k - 1) then 1 else 0) && rest == MsbMessage(base, 2 * sym + bit, k - 1, v)
    ensures m == [Coded(base + sym, bit)] + rest == MsbMessage(base, sym, k, v)
  {
    m := [Coded(base + sym, bit)] + rest;
  }

  /** 97 is 01100001. */
  lemma LetterByte()
    ensures Bit(97, 0) && !Bit(97, 1) && !Bit(97, 2) && !Bit(97, 3)
    ensures !Bit(97, 4) && Bit(97, 5) && Bit(97, 6) && !Bit(97, 7)
  {
  }

  lemma LowBitsOfLetter(b: nat)
    ensures MsbMessage(b, 22, 4, 97) == [Coded(b + 22, 0), Coded(b + 44, 0), Coded(b + 88, 0), Coded(b + 176, 1)]
  {
    LetterByte();
    hide Bit;
    var m: Message := [];
    m := MsbNext(b, 176, 1, 97, 1, m);
    m := MsbNext(b, 88, 2, 97, 0, m);
    m := MsbNext(b, 44, 3, 97, 0, m);
    m := MsbNext(b, 22, 4, 97, 0, m);
  }

  lemma LetterBits(b: nat)
    ensures MsbMessage(b, 1, 8, 97)
         == [Coded(b + 1, 0), Coded(b + 2, 1), Coded(b + 5, 1), Coded(b + 11, 0)]
            + [Coded(b + 22, 0), Coded(b + 44, 0), Coded(b + 88, 0), Coded(b + 176, 1)]
  {
    LetterByte();
    LowBitsOfLetter(b);
    hide Bit, MsbMessage;
    var m := MsbMessage(b, 22, 4, 97);
    m := MsbNext(b, 11, 5, 97, 0, m);
    m := MsbNext(b, 5, 6, 97, 1, m);
    m := MsbNext(b, 2, 7, 97, 1, m);
    m := MsbNext(b, 1, 8, 97, 0, m);
  }

  lemma LengthBits()
    ensures LenMessage(1332, 1, 7) == [Coded(1332, 0), Coded(1343, 1), Coded(1345, 0), Coded(1348, 1)]
  {
    var m: Message := [];
    m := MsbNext(1342, 6, 1, 5, 1, m);
    m := MsbNext(1342, 3, 2, 5, 0, m);
    m := MsbNext(1342, 1, 3, 5, 1, m);
  }

  lemma Positions(n: nat)
    requires n % 4 == 0
    ensures Low(n, 2) == 0 && Low(n + 1, 2) == 1
  {
    ShiftMeaning(n, 2);
    ShiftMeaning(n + 1, 2);
    assert Pow2(2) == 4;
  }

  lemma LetterMessages(s: LzmaPackets.State)
    requires Ready(s)
    ensures PacketMessage(s, LetterProps(), Lit(97)) == LetterMessage(LiteralBase(s, LetterProps()))[..9]
    ensures PacketMessage(Middle(s), LetterProps(), Rep(0, 7)) == LetterMessage(LiteralBase(s, LetterProps()))[9..]
  {
    hide MsbMessage, LenMessage, LiteralBase, Low;
    LetterBits(LiteralBase(s, LetterProps()));
    LengthBits();
    Positions(|s.out| - s.dict);
    assert PosState(s, LetterProps()) == 0 && PosState(Middle(s), LetterProps()) == 1;
  }

  lemma LettersSent(s: LzmaPackets.State)
    requires Ready(s) && AllApply(s, LetterPackets())
    ensures ChunkMessage(s, LetterProps(), LetterPackets()) == LetterMessage(LiteralBase(s, LetterProps()))
  {
    hide Apply, Applies, PacketMessage, LiteralBase;
    OneLetter(s);
    LetterMessages(s);
    var ps, m := LetterPackets(), LetterMessage(LiteralBase(s, LetterProps()));
    assert ps[1..] == [Rep(0, 7)] && ps[1..][1..] == [];
    assert m[..9] + m[9..] == m;
  }

  // ----- the numbers of the encoder -----

  datatype Numbers = Numbers(low: nat, range: nat, digits: nat)

  /** One bit at the initial probability. */
  function Halve(n: Numbers, bit: nat): Numbers {
    var r := ScaledRange(n.range);
    var half := r / 2048 * 1024;
    Numbers((if n.range < TOP then 256 * n.low else n.low) + (if bit == 0 then 0 else half),
            if bit == 0 then half else r - half,
            n.digits + if n.range < TOP then 1 else 0)
  }

  function HalveAll(n: Numbers, m: Message): Numbers
    decreases |m|
  {
    if m == [] then n else HalveAll(Halve(n, m[0].bit), m[1..])
  }

  function NumbersOf(e: Encoder): Numbers {
    Numbers(e.low, e.range, e.digits)
  }

  /** Coded bits in contexts that differ and have not been used. */
  ghost predicate AllNew(m: Message, probs: seq<nat>) {
    && (forall i: nat :: i < |m| ==> m[i].Coded? && m[i].ctx < |probs| && probs[m[i].ctx] == 1024)
    && (forall i: nat, j: nat :: i < j < |m| ==> m[i].ctx != m[j].ctx)
  }

  lemma {:induction false} NewContexts(e: Encoder, m: Message)
    requires Usable(m, |e.probs|) && AllNew(m, e.probs)
    ensures NumbersOf(EmitAll(e, m)) == HalveAll(NumbersOf(e), m)
    decreases |m|
  {
    if m != [] {
      var e' := Emit(e, m[0]);
      assert NumbersOf(e') == Halve(NumbersOf(e), m[0].bit);
      var rest := m[1..];
      assert forall i: nat :: i < |rest| ==> rest[i] == m[i + 1];
      NewContexts(e', rest);
    }
  }

  lemma OneBit(n: Numbers, e: Event, n': Numbers, rest: Message, last: Numbers) returns (m: Message)
    requires Halve(n, e.bit) == n' && HalveAll(n', rest) == last
    ensures m == [e] + rest && HalveAll(n, m) == last
  {
    m := [e] + rest;
    assert m[1..] == rest;
  }

  lemma LengthNumbers(n: Numbers) returns (m: Message)
    requires n == Numbers(210092425216, 8388608, 5)
    ensures m == [Coded(1332, 0), Coded(1343, 1), Coded(1345, 0), Coded(1348, 1)]
    ensures HalveAll(Numbers(210050482176, 134217728, 5), m) == n
  {
    m := [];
    m := OneBit(Numbers(210084036608, 16777216, 5), Coded(1348, 1), n, m, n);
    hide HalveAll;
    m := OneBit(Numbers(210084036608, 33554432, 5), Coded(1345, 0), Numbers(210084036608, 16777216, 5), m, n);
    m := OneBit(Numbers(210050482176, 67108864, 5), Coded(1343, 1), Numbers(210084036608, 33554432, 5), m, n);
    m := OneBit(Numbers(210050482176, 134217728, 5), Coded(1332, 0), Numbers(210050482176, 67108864, 5), m, n);
  }

  lemma RepeatNumbers(rest: Message, n: Numbers) returns (m: Message)
    requires HalveAll(Numbers(210050482176, 134217728, 5), rest) == n
    ensures m == [Coded(1, 1), Coded(192, 1), Coded(204, 0), Coded(241, 1)] + rest
    ensures HalveAll(Numbers(813693952, 8388608, 4), m) == n
  {
    hide HalveAll;
    m := OneBit(Numbers(209916264448, 268435456, 5), Coded(241, 1), Numbers(210050482176, 134217728, 5), rest, n);
    m := OneBit(Numbers(209916264448, 536870912, 5), Coded(204, 0), Numbers(209916264448, 268435456, 5), m, n);
    m := OneBit(Numbers(209379393536, 1073741824, 5), Coded(192, 1), Numbers(209916264448, 536870912, 5), m, n);
    m := OneBit(Numbers(813693952, 8388608, 4), Coded(1, 1), Numbers(209379393536, 1073741824, 5), m, n);
  }

  lemma LowNumbers(b: nat, rest: Message, n: Numbers) returns (m: Message)
    requires HalveAll(Numbers(813693952, 8388608, 4), rest) == n
    ensures m == [Coded(b + 22, 0), Coded(b + 44, 0), Coded(b + 88, 0), Coded(b + 176, 1)] + rest
    ensures HalveAll(Numbers(805305344, 134217728, 4), m) == n
  {
    hide HalveAll;
    m := OneBit(Numbers(805305344, 16777216, 4), Coded(b + 176, 1), Numbers(813693952, 8388608, 4), rest, n);
    m := OneBit(Numbers(805305344, 33554432, 4), Coded(b + 88, 0), Numbers(805305344, 16777216, 4), m, n);
    m := OneBit(Numbers(805305344, 67108864, 4), Coded(b + 44, 0), Numbers(805305344, 33554432, 4), m, n);
    m := OneBit(Numbers(805305344, 134217728, 4), Coded(b + 22, 0), Numbers(805305344, 67108864, 4), m, n);
  }

  lemma HighNumbers(b: nat, rest: Message, n: Numbers) returns (m: Message)
    requires HalveAll(Numbers(805305344, 134217728, 4), rest) == n
    ensures m == [Coded(0, 0), Coded(b + 1, 0), Coded(b + 2, 1), Coded(b + 5, 1), Coded(b + 11, 0)] + rest
    ensures HalveAll(Numbers(0, 0xffff_ffff, 4), m) == n
  {
    hide HalveAll;
    m := OneBit(Numbers(805305344, 268435456, 4), Coded(b + 11, 0), Numbers(805305344, 134217728, 4), rest, n);
    m := OneBit(Numbers(536869888, 536870912, 4), Coded(b + 5, 1), Numbers(805305344, 268435456, 4), m, n);
    m := OneBit(Numbers(0, 1073740800, 4), Coded(b + 2, 1), Numbers(536869888, 536870912, 4), m, n);
    m := OneBit(Numbers(0, 2147482624, 4), Coded(b + 1, 0), Numbers(0, 1073740800, 4), m, n);
    m := OneBit(Numbers(0, 0xffff_ffff, 4), Coded(0, 0), Numbers(0, 2147482624, 4), m, n);
  }

  lemma AllBits(b: nat)
    ensures HalveAll(Numbers(0, 0xffff_ffff, 4), LetterMessage(b)) == Numbers(210092425216, 8388608, 5)
  {
    hide HalveAll, Halve;
    var n := Numbers(210092425216, 8388608, 5);
    var m := LengthNumbers(n);
    m := RepeatNumbers(m, n);
    m := LowNumbers(b, m, n);
    m := HighNumbers(b, m, n);
    assert m == LetterMessage(b);
  }

  /** The literal, and the repeat. */
  lemma LetterContexts(m: Message, b: nat)
    requires m == LetterMessage(b) && b >= 1846
    ensures forall i: nat, j: nat :: i < j < 9 ==> m[i].ctx != m[j].ctx
    ensures forall i: nat :: i < 9 ==> m[i].ctx == 0 || 1847 <= m[i].ctx <= b + 176
  {
  }

  lemma RepeatContexts(m: Message, b: nat)
    requires m == LetterMessage(b)
    ensures forall i: nat, j: nat :: 9 <= i < j < 17 ==> m[i].ctx != m[j].ctx
    ensures forall i: nat :: 9 <= i < 17 ==> 1 <= m[i].ctx < 1349
  {
  }

  lemma LetterSizes(m: Message, b: nat)
    requires m == LetterMessage(b)
    ensures |m| == 17 && forall i: nat :: i < 17 ==> m[i].Coded? && m[i].bit < 2
  {
  }

  lemma LettersNew(b: nat)
    requires 1846 <= b && b + 0x300 <= PROB_COUNT
    ensures Usable(LetterMessage(b), PROB_COUNT) && AllNew(LetterMessage(b), Fresh())
  {
    hide LetterMessage;
    LetterContexts(LetterMessage(b), b);
    RepeatContexts(LetterMessage(b), b);
    LetterSizes(LetterMessage(b), b);
  }

  lemma LetterNumbers(b: nat)
    requires 1846 <= b && b + 0x300 <= PROB_COUNT
    ensures Usable(LetterMessage(b), PROB_COUNT)
    ensures NumbersOf(EmitAll(StartEncoder(Fresh()), LetterMessage(b))) == Numbers(210092425216, 8388608, 5)
  {
    hide EmitAll, HalveAll, LetterMessage, Fresh;
    LettersNew(b);
    NewContexts(StartEncoder(Fresh()), LetterMessage(b));
    AllBits(b);
  }

  // ----- the blocks -----

  lemma LetterDigits(input: seq<byte>, off: nat)
    requires off + 7 <= |input| && input[off..off + 7] == CODE
    ensures Digits(input, off + 1, 5) == 210092425216
  {
    forall i: nat | i < 7 ensures ByteOf(input, off + i) == CODE[i] {
      assert input[off + i] == input[off..off + 7][i];
    }
    assert Digits(input, off + 1, 1) == 0x30;
    assert Digits(input, off + 1, 2) == 0x30ea;
    assert Digits(input, off + 1, 3) == 0x30ea7c;
    assert Digits(input, off + 1, 4) == 0x30ea7c00;
  }

  /** The resets lead to a state in which the chunk is sent. */
  ghost predicate ReadyFor(st: BlockState, reset: nat) {
    && 1 <= reset <= 3
    && var b := Begin(st, reset, LetterProps());
    Ready(b.s) && b.s.out == st.s.out && b.props == LetterProps() && b.probs == Fresh()
  }

  lemma LettersSendable(st: BlockState, reset: nat)
    requires ReadyFor(st, reset)
    ensures Sendable(st, LetterChunk(reset)) && After(st, LetterChunk(reset)).s.out == st.s.out + EIGHT
    ensures BodySize(st, LetterChunk(reset)) == 7
    ensures NumbersOf(EmitAll(StartEncoder(Fresh()), MessageOf(st, LetterChunk(reset)))) == Numbers(210092425216, 8388608, 5)
  {
    hide EmitAll, AllApply, ApplyAll, LetterMessage, LetterPackets, Fresh, ChunkMessage, AdaptAll, LiteralBase;
    var b := Begin(st, reset, LetterProps());
    LettersApply(b.s);
    LettersSent(b.s);
    LetterNumbers(LiteralBase(b.s, LetterProps()));
  }

  /** The bytes one by one. */
  lemma HeadBytes(input: seq<byte>, off: nat, reset: nat, k: nat)
    requires 1 <= reset <= 3 && k == if reset == 1 then 5 else 6
    requires off + |Letters(reset)| <= |input| && input[off..off + |Letters(reset)|] == Letters(reset)
    ensures |Letters(reset)| == k + 7 && input[off + k..off + k + 7] == CODE
    ensures ByteOf(input, off) == 0x80 + 0x20 * reset && Big(input, off + 1) == 7 && Big(input, off + 3) == 6
    ensures reset >= 2 ==> ByteOf(input, off + 5) == 0x5d
  {
    var l := Letters(reset);
    forall i: nat | i < |l| ensures ByteOf(input, off + i) == l[i] {
      assert input[off + i] == input[off..off + |l|][i];
    }
    assert ByteOf(input, off) == l[0] && Big(input, off + 1) == 7 && Big(input, off + 3) == 6;
    assert input[off + k..off + k + 7] == input[off..off + |l|][k..] == l[k..] == CODE;
  }

  /** Wherever the bytes stand, they are the chunk. */
  lemma LettersAt(input: seq<byte>, off: nat, st: BlockState, reset: nat)
    requires ReadyFor(st, reset)
    requires off + |Letters(reset)| <= |input| && input[off..off + |Letters(reset)|] == Letters(reset)
    ensures ChunkAt(input, off, st, LetterChunk(reset)) && After(st, LetterChunk(reset)).s.out == st.s.out + EIGHT
    ensures ChunkEnd(st, off, LetterChunk(reset)) == off + |Letters(reset)| && Sendable(st, LetterChunk(reset))
  {
    hide EmitAll, AllApply, ApplyAll, LetterMessage, LetterPackets, Fresh, ChunkMessage, AdaptAll, Digits, Sendable, After, BodySize, MessageOf, LiteralBase, Ready;
    LettersSendable(st, reset);
    var k := if reset == 1 then 5 else 6;
    HeadBytes(input, off, reset, k);
    hide Letters;
    LetterDigits(input, off + k);
    assert PackedAt(input, off, st, LetterChunk(reset));
  }

  /** The state behind the first chunk is ready for any of the resets. */
  lemma ReadyAgain(st: BlockState, reset: nat)
    requires st.s.out == [] && 1 <= reset <= 3
    ensures ReadyFor(st, 3) && Sendable(st, LetterChunk(3)) && ReadyFor(After(st, LetterChunk(3)), reset)
  {
    hide EmitAll, AllApply, ApplyAll, LetterMessage, LetterPackets, Fresh, ChunkMessage, AdaptAll, LiteralBase;
    LettersSendable(st, 3);
    LettersApply(Begin(st, 3, LetterProps()).s);
  }

  lemma LastChunk(input: seq<byte>, off: nat, st: BlockState, c: Chunk)
    requires Sendable(st, c) && ChunkAt(input, off, st, c)
    requires ChunkEnd(st, off, c) < |input| && input[ChunkEnd(st, off, c)] == 0
    ensures AllSendable(st, [c]) && ChunksAt(input, off, st, [c])
    ensures AfterAll(st, [c]) == After(st, c) && ChunksEnd(st, off, [c]) == ChunkEnd(st, off, c) + 1
  {
    hide ChunkAt, Sendable, After, ChunkEnd;
    assert [c][1..] == [];
  }

  lemma FirstChunk(input: seq<byte>, off: nat, st: BlockState, c: Chunk, rest: seq<Chunk>)
    requires Sendable(st, c) && ChunkAt(input, off, st, c) && AllSendable(After(st, c), rest)
    requires ChunksAt(input, ChunkEnd(st, off, c), After(st, c), rest)
    ensures AllSendable(st, [c] + rest) && ChunksAt(input, off, st, [c] + rest)
    ensures AfterAll(st, [c] + rest) == AfterAll(After(st, c), rest)
    ensures ChunksEnd(st, off, [c] + rest) == ChunksEnd(After(st, c), ChunkEnd(st, off, c), rest)
  {
    hide ChunkAt, Sendable, After, ChunkEnd;
    assert ([c] + rest)[1..] == rest;
  }

  /** From any state without output, the bytes are the two chunks and the byte that ends the block. */
  lemma TwiceCarried(st: BlockState, reset: nat)
    requires st.s.out == [] && 1 <= reset <= 3
    ensures var cs := [LetterChunk(3), LetterChunk(reset)];
      && AllSendable(st, cs) && ChunksAt(Twice(reset), 0, st, cs) && PropsReadable(cs)
      && AfterAll(st, cs).s.out == EIGHT + EIGHT && ChunksEnd(st, 0, cs) == |Twice(reset)|
  {
    hide ChunkAt, Sendable, After, ReadyFor, ChunkEnd, AllSendable, ChunksAt, AfterAll, ChunksEnd;
    var input, first := Twice(reset), LetterChunk(3);
    ReadyAgain(st, reset);
    assert input[0..13] == Letters(3) && input[13..13 + |Letters(reset)|] == Letters(reset);
    LettersAt(input, 0, st, 3);
    LettersAt(input, 13, After(st, first), reset);
    LastChunk(input, 13, After(st, first), LetterChunk(reset));
    FirstChunk(input, 0, st, first, [LetterChunk(reset)]);
    assert [first, LetterChunk(reset)] == [first] + [LetterChunk(reset)];
    assert [] + EIGHT == EIGHT;
  }

  /** The block decodes to sixteen letters, whatever the probabilities and distances held before. */
  method UncompressTwice(reset: nat, probs: array<nat>, dist0: seq<nat>, out: array<byte>)
    returns (ok: bool, off: nat, pos: nat)
    requires 1 <= reset <= 3
    requires probs.Length == PROB_COUNT && ProbsOk(probs[..]) && |dist0| == 4
    modifies probs, out
    ensures ok <==> out.Length >= 16
    ensures ok ==> pos <= out.Length && out[..pos] == EIGHT + EIGHT && off == |Twice(reset)|
  {
    hide AllSendable, ChunksAt, AfterAll, ChunksEnd, PropsReadable;
    TwiceCarried(InitialState(dist0, probs[..]), reset);
    ok, off, pos := UncompressBlock(Twice(reset), 0, probs, dist0, out, [LetterChunk(3), LetterChunk(reset)]);
  }

  // ----- chunks that are not packed -----

  /** Three bytes after a dictionary reset, then one without. */
  const PLAIN: seq<byte> := [1, 0, 2, 97, 98, 99, 2, 0, 0, 100, 0]

  function PlainChunks(): seq<Chunk> {
    [Raw(true, [97, 98, 99]), Raw(false, [100])]
  }

  lemma PlainCarried(st: BlockState)
    requires st.s.out == []
    ensures AllSendable(st, PlainChunks()) && ChunksAt(PLAIN, 0, st, PlainChunks()) && PropsReadable(PlainChunks())
    ensures AfterAll(st, PlainChunks()).s.out == [97, 98, 99, 100] && ChunksEnd(st, 0, PlainChunks()) == 11
  {
    var cs := PlainChunks();
    assert cs[1..] == [Raw(false, [100])] && cs[1..][1..] == [];
    assert PLAIN[3..6] == [97, 98, 99] && PLAIN[9..10] == [100];
    assert [] + [97, 98, 99] == [97, 98, 99] && [97, 98, 99] + [100] == [97, 98, 99, 100];
  }

  method UncompressPlain(probs: array<nat>, dist0: seq<nat>, out: array<byte>) returns (ok: bool, off: nat, pos: nat)
    requires probs.Length == PROB_COUNT && ProbsOk(probs[..]) && |dist0| == 4
    modifies probs, out
    ensures ok <==> out.Length >= 4
    ensures ok ==> pos <= out.Length && out[..pos] == [97, 98, 99, 100] && off == 11
  {
    hide AllSendable, ChunksAt, AfterAll, ChunksEnd, PropsReadable;
    PlainCarried(InitialState(dist0, probs[..]));
    ok, off, pos := UncompressBlock(PLAIN, 0, probs, dist0, out, PlainChunks());
  }
}
