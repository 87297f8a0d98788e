/** The LZMA2 chunks of elf_uncompress_lzma_block: what a sequence of chunks means, how it is laid out,
    and the loop that reads it. */
module LzmaBlock {
  import opened Bits
  import opened MatchCopy
  import opened RangeCoder
  import opened LzmaIntegers
  import opened LzmaReader
  import opened LzmaPackets
  import opened LzmaChunk

  // ----- the property byte -----

  function PropsByte(p: Props): nat {
    45 * p.pb + 9 * p.lp + p.lc
  }

  /** What is left of a property byte after the two loops. */
  lemma PropsParts(p: Props, pb: nat, lp: nat, rest: nat)
    requires p.Valid() && PropsByte(p) == 45 * pb + 9 * lp + rest
    requires rest <= 9 && 9 * lp + rest <= 44 && (lp > 0 ==> rest > 0)
    ensures pb == p.pb
    ensures if p.lc > 0 || p.lp == 0 then lp == p.lp && rest == p.lc else rest == 9
  {
    var low := 9 * p.lp + p.lc;
    assert 45 * p.pb + low == 45 * pb + (9 * lp + rest);
    assert pb == p.pb && low == 9 * lp + rest;
  }

  /** The property byte is taken apart by repeated subtraction.  The last loop stops at nine instead of
      below it, so the byte of a code without literal context bits but with literal position bits is
      refused; every other byte is read as it was written. */
  method ReadProps(b: byte) returns (ok: bool, props: Props)
    ensures ok ==> props.Valid() && PropsByte(props) == b
    ensures forall p: Props :: p.Valid() && PropsByte(p) == b ==>
              (ok <==> p.lc > 0 || p.lp == 0) && (ok ==> props == p)
  {
    var pb: nat, lp: nat, rest: nat := 0, 0, b;
    props := Props(0, 0, 0);
    if b > (4 * 5 + 4) * 9 + 8 {
      return false, props;
    }
    while rest >= 9 * 5
      invariant 45 * pb + rest == b
    {
      rest := rest - 9 * 5;
      pb := pb + 1;
    }
    while rest > 9
      invariant 45 * pb + 9 * lp + rest == b && rest <= 44 && (lp > 0 ==> rest > 0) && 9 * lp + rest <= 44
    {
      rest := rest - 9;
      lp := lp + 1;
    }
    forall p: Props | p.Valid() && PropsByte(p) == b
      ensures pb == p.pb && if p.lc > 0 || p.lp == 0 then lp == p.lp && rest == p.lc else rest == 9
    {
      PropsParts(p, pb, lp, rest);
    }
    if rest + lp > 4 {
      return false, props;
    }
    props := Props(rest, lp, pb);
    ok := true;
  }

  /** A property byte that is refused: no literal context bits, one literal position bit. */
  method RefuseProps(p: Props) returns (ok: bool)
    requires p == Props(0, 1, 0)
    ensures p.Valid() && PropsByte(p) == 9 && !ok
  {
    assert PropsByte(p) == 9;
    var read;
    ok, read := ReadProps(9);
  }

  // ----- what chunks mean -----

  /** Bytes as they are, or packets.  A packed chunk resets nothing (0), the state (1), the state and
      the properties (2), or these and the dictionary (3). */
  datatype Chunk =
    | Raw(resetDict: bool, data: seq<byte>)
    | Packed(reset: nat, props: Props, packets: seq<Packet>)

  datatype BlockState = BlockState(s: LzmaPackets.State, props: Props, probs: seq<nat>) {
    predicate Valid() {
      s.Valid() && props.Valid() && |probs| == PROB_COUNT && ProbsOk(probs)
    }
  }

  function Fresh(): (probs: seq<nat>)
    ensures |probs| == PROB_COUNT && ProbsOk(probs)
  {
    seq(PROB_COUNT, _ => PROB_INIT)
  }

  /** The state after the resets of a packed chunk. */
  function Begin(st: BlockState, reset: nat, props: Props): BlockState {
    BlockState(
      State(if reset >= 1 then 0 else st.s.lstate, if reset >= 1 then [0, 0, 0, 0] else st.s.dist, st.s.out,
            if reset >= 3 then |st.s.out| else st.s.dict),
      if reset >= 2 then props else st.props,
      if reset >= 1 then Fresh() else st.probs)
  }

  /** A chunk that can be sent in a state. */
  predicate Sendable(st: BlockState, c: Chunk) {
    match c
    case Raw(_, data) => 0 < |data| <= 0x1_0000
    case Packed(reset, props, ps) =>
      var b := Begin(st, reset, props);
      reset < 4 && b.Valid() && AllApply(b.s, ps) && |b.s.out| < |ApplyAll(b.s, ps).out| <= |b.s.out| + 0x20_0000
  }

  /** The message of a packed chunk. */
  function MessageOf(st: BlockState, c: Chunk): (m: Message)
    requires c.Packed? && Sendable(st, c)
    ensures Usable(m, PROB_COUNT)
  {
    var b := Begin(st, c.reset, c.props);
    ChunkUsable(b.s, b.props, c.packets);
    ChunkMessage(b.s, b.props, c.packets)
  }

  function After(st: BlockState, c: Chunk): BlockState
    requires Sendable(st, c)
  {
    match c
    case Raw(resetDict, data) =>
      st.(s := State(st.s.lstate, st.s.dist, st.s.out + data, if resetDict then |st.s.out| else st.s.dict))
    case Packed(reset, props, ps) =>
      var b := Begin(st, reset, props);
      BlockState(ApplyAll(b.s, ps), b.props, AdaptAll(b.probs, MessageOf(st, c)))
  }

  predicate AllSendable(st: BlockState, cs: seq<Chunk>)
    decreases |cs|
  {
    cs == [] || (Sendable(st, cs[0]) && AllSendable(After(st, cs[0]), cs[1..]))
  }

  function AfterAll(st: BlockState, cs: seq<Chunk>): BlockState
    requires AllSendable(st, cs)
    decreases |cs|
  {
    if cs == [] then st else AfterAll(After(st, cs[0]), cs[1..])
  }

  // ----- how they are laid out -----

  /** A big-endian number of two bytes. */
  function Big(input: seq<byte>, i: nat): nat
    requires i + 1 < |input|
  {
    256 * ByteOf(input, i) + ByteOf(input, i + 1)
  }

  /** Where the range coder bytes of a packed chunk begin: behind the control byte, two sizes and,
      possibly, the properties. */
  function BodyOff(off: nat, reset: nat): nat {
    off + if reset >= 2 then 6 else 5
  }

  /** Size in bytes of the range coder bytes: the digits of the reference encoder and the skipped byte,
      with one more if a normalisation is due at the end. */
  function BodySize(st: BlockState, c: Chunk): nat
    requires c.Packed? && Sendable(st, c)
  {
    var e := EmitAll(StartEncoder(Begin(st, c.reset, c.props).probs), MessageOf(st, c));
    1 + e.digits + if e.range < TOP then 1 else 0
  }

  function ChunkEnd(st: BlockState, off: nat, c: Chunk): nat
    requires Sendable(st, c)
  {
    if c.Raw? then off + 3 + |c.data| else BodyOff(off, c.reset) + BodySize(st, c)
  }

  /** The bytes at off are chunk c, sent in state st. */
  ghost predicate ChunkAt(input: seq<byte>, off: nat, st: BlockState, c: Chunk) {
    && Sendable(st, c) && ChunkEnd(st, off, c) <= |input|
    && match c
       case Raw(resetDict, data) =>
         && ByteOf(input, off) == (if resetDict then 1 else 2) && Big(input, off + 1) + 1 == |data|
         && input[off + 3..off + 3 + |data|] == data
       case Packed(reset, props, ps) => PackedAt(input, off, st, c)
  }

  ghost predicate PackedAt(input: seq<byte>, off: nat, st: BlockState, c: Chunk)
    requires c.Packed? && Sendable(st, c) && ChunkEnd(st, off, c) <= |input|
  {
    var n, b := |After(st, c).s.out| - |st.s.out| - 1, Begin(st, c.reset, c.props);
    && ByteOf(input, off) == 0x80 + 0x20 * c.reset + n / 0x1_0000
    && Big(input, off + 1) == n % 0x1_0000
    && Big(input, off + 3) + 1 == BodySize(st, c)
    && (c.reset >= 2 ==> ByteOf(input, off + 5) == PropsByte(c.props))
    && Chosen(input, BodyOff(off, c.reset) + 1, EmitAll(StartEncoder(b.probs), MessageOf(st, c)))
  }

  /** The bytes from off on are the chunks cs and the byte that ends them. */
  ghost predicate ChunksAt(input: seq<byte>, off: nat, st: BlockState, cs: seq<Chunk>)
    decreases |cs|
  {
    if cs == [] then off < |input| && input[off] == 0
    else ChunkAt(input, off, st, cs[0]) && ChunksAt(input, ChunkEnd(st, off, cs[0]), After(st, cs[0]), cs[1..])
  }

  function ChunksEnd(st: BlockState, off: nat, cs: seq<Chunk>): nat
    requires AllSendable(st, cs)
    decreases |cs|
  {
    if cs == [] then off + 1 else ChunksEnd(After(st, cs[0]), ChunkEnd(st, off, cs[0]), cs[1..])
  }

  /** The C code does not misread the property byte of the chunk. */
  predicate Readable(c: Chunk) {
    c.Packed? && c.reset >= 2 ==> c.props.lc > 0 || c.props.lp == 0
  }

  predicate PropsReadable(cs: seq<Chunk>) {
    forall i: nat :: i < |cs| ==> Readable(cs[i])
  }

  // ----- reading one chunk -----

  /** The state that the variables of the decoder stand for. */
  function Now(lstate: nat, dist: seq<nat>, out: seq<byte>, dict: nat, props: Props, probs: seq<nat>): BlockState {
    BlockState(StateOf(lstate, dist, out, dict), props, probs)
  }

  /** The sizes of a packed chunk, and its properties if there are any; off is behind the control byte. */
  method ReadHead(input: seq<byte>, off: nat, control: nat, props0: Props)
    returns (ok: bool, usize: nat, csize: nat, props: Props, off': nat)
    requires props0.Valid() && 0x80 <= control < 0x100
    ensures props.Valid()
    ensures ok ==> off + 4 < |input| && off' == off + (if control >= 0xc0 then 5 else 4)
                   && usize == control % 0x20 * 0x1_0000 + Big(input, off) + 1 && csize == Big(input, off + 2) + 1
    ensures control < 0xc0 ==> props == props0 && (ok <==> off + 4 < |input|)
    ensures control >= 0xc0 && off + 4 < |input| ==>
      forall p: Props :: p.Valid() && PropsByte(p) == input[off + 4] ==>
        (ok <==> p.lc > 0 || p.lp == 0) && (ok ==> props == p)
  {
    props, usize, csize, off' := props0, 0, 0, off;
    if off + 4 >= |input| {
      return false, usize, csize, props, off';
    }
    usize := control % 0x20 * 0x1_0000 + Big(input, off) + 1;
    csize := Big(input, off + 2) + 1;
    off' := off + 4;
    ok := true;
    if control >= 0xc0 {
      if off' >= |input| {
        return false, usize, csize, props, off';
      }
      var p;
      ok, p := ReadProps(input[off']);
      props := if ok then p else props0;
      off' := off' + 1;
    }
  }

  /** A state reset. */
  method ResetState(probs: array<nat>) returns (lstate: nat, dist: seq<nat>)
    requires probs.Length == PROB_COUNT
    modifies probs
    ensures lstate == 0 && dist == [0, 0, 0, 0] && probs[..] == Fresh()
  {
    lstate, dist := 0, [0, 0, 0, 0];
    var i := 0;
    while i < PROB_COUNT
      invariant i <= PROB_COUNT
      invariant forall k :: 0 <= k < i ==> probs[k] == PROB_INIT
    {
      probs[i] := PROB_INIT;
      i := i + 1;
    }
  }

  lemma DigitsGrow(probs: seq<nat>, m: Message)
    requires Usable(m, |probs|)
    ensures EmitAll(StartEncoder(probs), m).digits >= 4
  {
    EmitAllIsEncode(StartEncoder(probs), m);
  }

  /** What the bytes of a packed chunk say. */
  lemma PackedParts(input: seq<byte>, off: nat, st: BlockState, c: Chunk)
    requires c.Packed? && ChunkAt(input, off, st, c)
    ensures off + 10 <= |input| && Sendable(st, c)
    ensures var control, b := ByteOf(input, off), Begin(st, c.reset, c.props);
      && 0x80 <= control < 0x100 && control / 0x20 == 4 + c.reset
      && control % 0x20 * 0x1_0000 + Big(input, off + 1) + 1 == |After(st, c).s.out| - |st.s.out|
      && (control >= 0xc0 ==> PropsByte(c.props) == input[off + 5])
      && Sent(input, BodyOff(off, c.reset), b.probs, MessageOf(st, c), Big(input, off + 3) + 1)
      && OffAfter(input, Finished(BodyOff(off, c.reset), b.probs, MessageOf(st, c))) == ChunkEnd(st, off, c)
  {
    hide EmitAll, ApplyAll, AllApply, MessageOf, ChunkMessage, Digits, Fresh;
    DigitsGrow(Begin(st, c.reset, c.props).probs, MessageOf(st, c));
    ControlParts(c.reset, |After(st, c).s.out| - |st.s.out| - 1);
  }

  /** The state in which a packed chunk ends. */
  lemma PackedAfter(off: nat, st: BlockState, c: Chunk)
    requires c.Packed? && Sendable(st, c)
    ensures var b := Begin(st, c.reset, c.props);
      && b.Valid() && AllApply(b.s, c.packets) && MessageOf(st, c) == ChunkMessage(b.s, b.props, c.packets)
      && After(st, c) == BlockState(ApplyAll(b.s, c.packets), b.props, Finished(off, b.probs, MessageOf(st, c)).probs)
  {
    EmitAllIsEncode(StartEncoder(Begin(st, c.reset, c.props).probs), MessageOf(st, c));
  }

  lemma ControlParts(reset: nat, n: nat)
    requires reset < 4 && n < 0x20_0000
    ensures var control := 0x80 + 0x20 * reset + n / 0x1_0000;
      control < 0x100 && control / 0x20 == 4 + reset && control % 0x20 * 0x1_0000 + n % 0x1_0000 == n
  {
  }

  /** An uncompressed chunk, behind its control byte. */
  method ReadRaw(input: seq<byte>, off: nat, out: array<byte>, pos0: nat) returns (ok: bool, off': nat, pos: nat)
    requires pos0 <= out.Length
    modifies out
    ensures pos0 <= pos <= out.Length
    ensures if off + 2 > |input| then !ok
            else
              var n := Big(input, off) + 1;
              && (ok <==> off + 2 + n <= |input| && pos0 + n <= out.Length)
              && (ok ==> off' == off + 2 + n && pos == pos0 + n && out[..pos] == old(out[..pos0]) + input[off + 2..off'])
  {
    ok, off', pos := false, off, pos0;
    if off + 2 > |input| {
      return;
    }
    var n := Big(input, off) + 1;
    if off + 2 + n > |input| || pos0 + n > out.Length {
      return;
    }
    CopyIn(out, pos0, input[off + 2..off + 2 + n]);
    return true, off + 2 + n, pos0 + n;
  }

  /** A packed chunk, whose control byte is at off; the dictionary has been reset. */
  method ReadPacked(input: seq<byte>, off: nat, probs: array<nat>, out: array<byte>, pos0: nat, dict: nat, props0: Props,
                    lstate0: nat, dist0: seq<nat>, ghost st: BlockState, ghost c: Chunk)
    returns (ok: bool, off': nat, pos: nat, props: Props, lstate: nat, dist: seq<nat>)
    requires off < |input| && input[off] >= 0x80 && probs.Length == PROB_COUNT && ProbsOk(probs[..])
    requires dict <= pos0 <= out.Length && props0.Valid() && lstate0 < STATES && |dist0| == 4
    requires st == Now(lstate0, dist0, out[..pos0], st.s.dict, props0, probs[..])
    requires dict == if input[off] >= 0xe0 then pos0 else st.s.dict
    modifies probs, out
    ensures pos0 <= pos <= out.Length && props.Valid() && lstate < STATES && |dist| == 4 && ProbsOk(probs[..])
    ensures ok ==> off' > off
    ensures c.Packed? && ChunkAt(input, off, st, c) ==>
      if ok then Readable(c) && off' == ChunkEnd(st, off, c) && Now(lstate, dist, out[..pos], dict, props, probs[..]) == After(st, c)
      else !Readable(c) || |After(st, c).s.out| > out.Length
  {
    hide ChunkAt, After, Sendable, Finished, EmitAll, ApplyAll, AllApply, MessageOf, ChunkMessage, Usable, AdaptAll, Fresh, PropsByte, Sent, PackedAt;
    var control: nat := input[off];
    ghost var carried := c.Packed? && ChunkAt(input, off, st, c);
    if carried {
      PackedParts(input, off, st, c);
      PackedAfter(BodyOff(off, c.reset), st, c);
    }
    var usize, csize;
    pos, lstate, dist := pos0, lstate0, dist0;
    ok, usize, csize, props, off' := ReadHead(input, off + 1, control, props0);
    if !ok {
      return;
    }
    if control >= 0xa0 {
      lstate, dist := ResetState(probs);
    }
    assert carried ==> Now(lstate, dist, out[..pos0], dict, props, probs[..]) == Begin(st, c.reset, c.props);
    ok, pos, lstate, dist, off' := UncompressChunk(input, off', probs, out, pos0, dict, props, lstate, dist, usize, csize,
                                                   if c.Packed? then c.packets else []);
  }

  /** What the bytes of an uncompressed chunk say. */
  lemma RawParts(input: seq<byte>, off: nat, st: BlockState, c: Chunk)
    requires c.Raw? && ChunkAt(input, off, st, c)
    ensures off + 3 <= |input| && ByteOf(input, off) == (if c.resetDict then 1 else 2)
    ensures var n := Big(input, off + 1) + 1;
      n == |c.data| && off + 3 + n == ChunkEnd(st, off, c) <= |input| && input[off + 3..off + 3 + n] == c.data
  {
  }

  /** One chunk, whose control byte is at off and not 0. */
  method ReadChunk(input: seq<byte>, off: nat, probs: array<nat>, out: array<byte>, pos0: nat, dict0: nat, props0: Props,
                   lstate0: nat, dist0: seq<nat>, ghost st: BlockState, ghost c: Chunk)
    returns (ok: bool, off': nat, pos: nat, dict: nat, props: Props, lstate: nat, dist: seq<nat>)
    requires off < |input| && input[off] != 0 && probs.Length == PROB_COUNT && ProbsOk(probs[..])
    requires dict0 <= pos0 <= out.Length && props0.Valid() && lstate0 < STATES && |dist0| == 4
    requires st == Now(lstate0, dist0, out[..pos0], dict0, props0, probs[..])
    modifies probs, out
    ensures dict <= pos <= out.Length && props.Valid() && lstate < STATES && |dist| == 4 && ProbsOk(probs[..])
    ensures ok ==> off' > off
    ensures ChunkAt(input, off, st, c) ==>
      if ok then Readable(c) && off' == ChunkEnd(st, off, c) && Now(lstate, dist, out[..pos], dict, props, probs[..]) == After(st, c)
      else !Readable(c) || |After(st, c).s.out| > out.Length
  {
    var control: nat := input[off];
    ghost var carried := ChunkAt(input, off, st, c);
    if carried && c.Raw? {
      RawParts(input, off, st, c);
    }
    if carried && c.Packed? {
      PackedParts(input, off, st, c);
    }
    hide ChunkAt, PackedAt, EmitAll, ApplyAll, AllApply, MessageOf, ChunkMessage, Usable, AdaptAll, Fresh, PropsByte, Sent;
    dict := if control == 1 || control >= 0xe0 then pos0 else dict0;
    ok, off', pos, props, lstate, dist := false, off, pos0, props0, lstate0, dist0;
    if control < 0x80 {
      if control > 2 {
        return;
      }
      ok, off', pos := ReadRaw(input, off + 1, out, pos0);
    } else {
      ok, off', pos, props, lstate, dist := ReadPacked(input, off, probs, out, pos0, dict, props0, lstate0, dist0, st, c);
    }
  }

  // ----- the chunk loop -----

  /** The chunks still to come are cs; they lead to the same state and end as all of them. */
  ghost predicate ChunksProgress(input: seq<byte>, off: nat, st: BlockState, cs: seq<Chunk>, final: BlockState, end: nat) {
    && AllSendable(st, cs) && ChunksAt(input, off, st, cs)
    && AfterAll(st, cs) == final && ChunksEnd(st, off, cs) == end
  }

  lemma {:induction false} OutputGrows(st: BlockState, cs: seq<Chunk>)
    requires AllSendable(st, cs)
    ensures |AfterAll(st, cs).s.out| >= |st.s.out|
    decreases |cs|
  {
    if cs != [] {
      OutputGrows(After(st, cs[0]), cs[1..]);
    }
  }

  /** What stands at the offset of the loop. */
  lemma NextChunk(input: seq<byte>, off: nat, st: BlockState, cs: seq<Chunk>, final: BlockState, end: nat)
    requires ChunksProgress(input, off, st, cs, final, end)
    ensures off < |input| && (input[off] == 0 <==> cs == [])
    ensures cs == [] ==> st == final && end == off + 1
    ensures cs != [] ==>
      && ChunkAt(input, off, st, cs[0]) && Sendable(st, cs[0]) && |After(st, cs[0]).s.out| <= |final.s.out|
      && ChunksProgress(input, ChunkEnd(st, off, cs[0]), After(st, cs[0]), cs[1..], final, end)
  {
    hide Sendable, After, ChunkEnd;
    if cs != [] {
      OutputGrows(After(st, cs[0]), cs[1..]);
      NotTheEnd(input, off, st, cs[0]);
    }
  }

  lemma NotTheEnd(input: seq<byte>, off: nat, st: BlockState, c: Chunk)
    requires ChunkAt(input, off, st, c)
    ensures off < |input| && input[off] != 0
  {
    if c.Raw? {
      RawParts(input, off, st, c);
    } else {
      PackedParts(input, off, st, c);
    }
  }

  lemma ReadableParts(cs: seq<Chunk>)
    requires cs != []
    ensures PropsReadable(cs) <==> Readable(cs[0]) && PropsReadable(cs[1..])
  {
    assert forall i: nat :: i < |cs[1..]| ==> cs[1..][i] == cs[i + 1];
    assert forall i: nat :: 0 < i < |cs| ==> cs[i] == cs[1..][i - 1];
  }

  /** The state before the first chunk; probabilities and distances hold anything. */
  function InitialState(dist: seq<nat>, probs: seq<nat>): BlockState {
    Now(0, dist, [], 0, Props(0, 0, 0), probs)
  }

  /** The chunk loop of elf_uncompress_lzma_block.  On an input that carries the chunks cs it succeeds
      exactly when no property byte is one that it misreads and the output fits, and then the output
      is that of the chunks and the offset stands behind the byte that ends them. */
  method UncompressBlock(input: seq<byte>, off0: nat, probs: array<nat>, dist0: seq<nat>, out: array<byte>,
                         ghost cs: seq<Chunk>) returns (ok: bool, off: nat, pos: nat)
    requires probs.Length == PROB_COUNT && ProbsOk(probs[..]) && |dist0| == 4
    modifies probs, out
    ensures pos <= out.Length
    ensures var st := InitialState(dist0, old(probs[..]));
      AllSendable(st, cs) && ChunksAt(input, off0, st, cs) ==>
        var total := AfterAll(st, cs).s.out;
        && (ok <==> PropsReadable(cs) && |total| <= out.Length)
        && (ok ==> out[..pos] == total && off == ChunksEnd(st, off0, cs))
  {
    hide AllSendable, ChunksAt, AfterAll, ChunksEnd, ChunksProgress, ChunkAt, Sendable, After, ChunkEnd, PropsReadable, Readable;
    off, pos := off0, 0;
    var dict: nat, props, lstate: nat, dist := 0, Props(0, 0, 0), 0, dist0;
    ghost var st, rest := InitialState(dist0, probs[..]), cs;
    assert out[..0] == [];
    ghost var carried := AllSendable(st, cs) && ChunksAt(input, off0, st, cs);
    ghost var final, end := if carried then AfterAll(st, cs) else st, if carried then ChunksEnd(st, off0, cs) else 0;
    if carried {
      StartChunks(input, off0, st, cs);
    }
    while off < |input|
      invariant dict <= pos <= out.Length && props.Valid() && lstate < STATES && |dist| == 4 && ProbsOk(probs[..])
      invariant st == Now(lstate, dist, out[..pos], dict, props, probs[..])
      invariant carried ==> ChunksProgress(input, off, st, rest, final, end)
      invariant carried ==> (PropsReadable(cs) <==> PropsReadable(rest))
    {
      if carried {
        NextChunk(input, off, st, rest, final, end);
      }
      if input[off] == 0 {
        off := off + 1;
        if carried {
          NothingMisread();
        }
        return true, off, pos;
      }
      if carried {
        ReadableParts(rest);
      }
      ghost var c := if carried then rest[0] else Raw(false, []);
      ok, off, pos, dict, props, lstate, dist := ReadChunk(input, off, probs, out, pos, dict, props, lstate, dist, st, c);
      if !ok {
        return;
      }
      st, rest := Now(lstate, dist, out[..pos], dict, props, probs[..]), if carried then rest[1..] else [];
    }
    if carried {
      NextChunk(input, off, st, rest, final, end);
    }
    ok := true;
  }

  lemma StartChunks(input: seq<byte>, off: nat, st: BlockState, cs: seq<Chunk>)
    requires AllSendable(st, cs) && ChunksAt(input, off, st, cs)
    ensures ChunksProgress(input, off, st, cs, AfterAll(st, cs), ChunksEnd(st, off, cs))
  {
  }

  lemma NothingMisread()
    ensures PropsReadable([])
  {
  }
}
