/** elf_zlib_inflate: the block loop, stored blocks, the fixed codes and the zlib wrapper. */
module Inflate {
  import opened Options
  import opened Bits
  import opened CanonicalCode
  import opened HiddenSymbol
  import opened HuffmanTable
  import opened TableSpace
  import opened TableBuilder
  import opened BitReader
  import opened MatchCopy
  import opened Deflate
  import opened InflateBlock
  import opened DynamicHeader

  // ----- the fixed codes (section 3.2.6) -----

  function FixedLit(): (lens: seq<nat>)
    ensures |lens| == 288
  {
    seq(288, i => if i < 144 then 8 else if i < 256 then 9 else if i < 280 then 7 else 8)
  }

  function FixedDist(): (lens: seq<nat>)
    ensures |lens| == 32
  {
    seq(32, _ => 5)
  }

  lemma FixedFit()
    ensures Fits(FixedLit()) && Fits(FixedDist())
  {
    assert Pow2(6) == 64 && Pow2(7) == 128 && Pow2(8) == 256;
    assert Pow2(10) == 1024 && Pow2(15) == 0x8000;
    FixedLitSum(FixedLit());
    KraftRun(FixedDist(), 0, 32, 5, 1024);
  }

  lemma FixedLitSum(lit: seq<nat>)
    requires lit == FixedLit() && Pow2(6) == 64 && Pow2(7) == 128 && Pow2(8) == 256
    ensures KraftSum(lit, 288) == 0x8000
  {
    KraftRun(lit, 0, 144, 8, 128);
    KraftRun(lit, 144, 256, 9, 64);
    KraftRun(lit, 256, 280, 7, 256);
    KraftRun(lit, 280, 288, 8, 128);
  }

  lemma FixedSpace()
    ensures RoomFor(FixedLit()) && RoomFor(FixedDist())
  {
    hide RoomFor;
    NineBitsFit(FixedLit());
    NineBitsFit(FixedDist());
  }

  /** The two constant tables, made as the generator in the source makes them. */
  method DefaultTables() returns (tlit: array<nat>, tdist: array<nat>)
    ensures fresh(tlit) && fresh(tdist) && tlit.Length == tdist.Length == TABLE_SIZE
    ensures Decodes(tlit[..], tdist[..], FixedLit(), FixedDist())
  {
    hide Represents, Fits, RoomFor, FixedLit, FixedDist;
    tlit, tdist := new nat[TABLE_SIZE], new nat[TABLE_SIZE];
    FixedFit();
    FixedSpace();
    var ok := InflateTable(FixedLit(), tlit);
    ok := InflateTable(FixedDist(), tdist);
  }

  // ----- blocks (section 3.2.3) -----

  datatype Block =
    | Stored(data: seq<byte>)
    | Fixed(tokens: seq<Token>)
    | Dynamic(header: Header, tokens: seq<Token>)

  /** Byte index of the length field of a stored block whose header ends at bit q: the next byte
      boundary. */
  function StoredByte(q: nat): nat {
    (q + 7) / 8
  }

  /** Where the C code looks for it: it keeps up to eight unread bits too many. */
  function StoredByteRead(q: nat): nat {
    q / 8 + 1
  }

  predicate StoredAt(m: nat, s: nat, data: seq<byte>) {
    && |data| < 0x1_0000
    && At(m, 8 * s, 16) == |data|
    && At(m, 8 * s + 16, 16) == 0xffff - |data|
    && forall i: nat :: i < |data| ==> At(m, 8 * (s + 4 + i), 8) == data[i]
  }

  /** The stream carries, from bit q on, the contents of a block of type `kind`. */
  ghost predicate ContentsAt(m: nat, q: nat, kind: nat, b: Block) {
    match b
    case Stored(data) => kind == 0 && StoredAt(m, StoredByte(q), data)
    case Fixed(ts) => kind == 1 && BodyAt(m, q, FixedLit(), FixedDist(), ts)
    case Dynamic(h, ts) => kind == 2 && HeaderAt(m, q, h) && BodyAt(m, HeaderEnd(m, q, h), LitLens(h), DistLens(h), ts)
  }

  /** The stream carries block b at pos, marked as the last one or not. */
  ghost predicate BlockAt(m: nat, pos: nat, last: bool, b: Block) {
    At(m, pos, 1) == (if last then 1 else 0) && ContentsAt(m, pos + 3, At(m, pos + 1, 2), b)
  }

  function ContentsEnd(m: nat, q: nat, b: Block): nat {
    match b
    case Stored(data) => 8 * (StoredByte(q) + 4 + |data|)
    case Fixed(ts) => BodyEnd(q, FixedLit(), FixedDist(), ts)
    case Dynamic(h, ts) => BodyEnd(HeaderEnd(m, q, h), LitLens(h), DistLens(h), ts)
  }

  function BlockEnd(m: nat, pos: nat, b: Block): nat {
    ContentsEnd(m, pos + 3, b)
  }

  function ExpandBlock(out: seq<byte>, b: Block): Option<seq<byte>> {
    if b.Stored? then Some(out + b.data) else Expand(out, b.tokens)
  }

  /** The 3-bit header of a stored block, which ends at q, does not end on a byte boundary. */
  predicate StoredReadable(q: nat, b: Block) {
    b.Stored? ==> q % 8 != 0
  }

  ghost predicate RoomForTables(b: Block) {
    b.Dynamic? ==> TablesFit(b.header)
  }

  ghost predicate BlocksAt(m: nat, pos: nat, bs: seq<Block>)
    decreases bs
  {
    && bs != []
    && BlockAt(m, pos, |bs| == 1, bs[0])
    && (|bs| > 1 ==> BlocksAt(m, BlockEnd(m, pos, bs[0]), bs[1..]))
  }

  function BlocksEnd(m: nat, pos: nat, bs: seq<Block>): nat
    decreases bs
  {
    if bs == [] then pos else BlocksEnd(m, BlockEnd(m, pos, bs[0]), bs[1..])
  }

  function ExpandBlocks(out: seq<byte>, bs: seq<Block>): Option<seq<byte>>
    decreases bs
  {
    if bs == [] then Some(out)
    else match ExpandBlock(out, bs[0])
      case None => None
      case Some(out') => ExpandBlocks(out', bs[1..])
  }

  /** Every stored block of the stream can be found by the C code. */
  predicate AllReadable(m: nat, pos: nat, bs: seq<Block>)
    decreases bs
  {
    bs == [] || (StoredReadable(pos + 3, bs[0]) && AllReadable(m, BlockEnd(m, pos, bs[0]), bs[1..]))
  }

  // ----- stored blocks -----

  /** The C code reads the length field of a stored block in the right place exactly when the block
      header does not end on a byte boundary. */
  lemma StoredAlignment(q: nat)
    ensures StoredByteRead(q) == StoredByte(q) <==> q % 8 != 0
  {
  }

  function Wide(b: byte): nat {
    b
  }

  /** A stored block as the C code finds it: length, complement and data, from byte s on. */
  ghost predicate StoredFound(mem: seq<byte>, s: nat, len: nat, end: nat) {
    && s + 4 + len <= end <= |mem| && len <= U32(end - (s + 4))
    && Half(mem, s) == len && Half(mem, s + 2) == 0xffff - len
  }

  /** Where the C code looks for the stored block whose header ends at bit q, there is none. */
  ghost predicate NothingThere(mem: seq<byte>, q: nat, end: nat) {
    forall len: nat :: !StoredFound(mem, StoredByteRead(q), len, end)
  }

  /** The data of a stored block, after the 3-bit header. */
  method ReadStored(r: Reservoir, out: array<byte>, pout0: nat) returns (ok: bool, pout: nat)
    requires r.Valid() && r.bits > 0 && pout0 <= out.Length
    modifies r, out
    ensures pout0 <= pout <= out.Length
    ensures ok ==> r.Valid() && r.Aligned() && r.Pos() > old(r.Pos())
    ensures var s := StoredByteRead(old(r.Pos()));
      if ok then var len := pout - pout0;
        StoredFound(r.mem, s, len, r.pinend) && r.Pos() == 8 * (s + 4 + len)
        && r.Limit() == WordLimit(r.address, r.pinend, s + 4 + len) && r.pin == NextWord(r.address, s + 4 + len)
        && len <= U32(out.Length - pout0)
        && out[..pout] == old(out[..pout0]) + r.mem[s + 4..s + 4 + len]
      else forall len: nat :: StoredFound(r.mem, s, len, r.pinend) ==> len > U32(out.Length - pout0)
  {
    hide U32, Half, NextWord, WordLimit;
    ghost var q := r.Pos();
    pout := pout0;
    while r.bits > 8
      invariant 0 < r.bits && 8 * r.pin - r.bits == q && r.pin <= r.pinend + 3
      modifies r
    {
      r.pin := r.pin - 1;
      r.bits := r.bits - 8;
    }
    assert r.pin == StoredByteRead(q);
    r.val := 0;
    r.bits := 0;
    if r.pin + 4 > r.pinend {
      return false, pout;
    }
    var len, lenc := Half(r.mem, r.pin), Half(r.mem, r.pin + 2);
    r.pin := r.pin + 4;
    if len != 0xffff - lenc || len > U32(r.pinend - r.pin) || len > U32(out.Length - pout) {
      return false, pout;
    }
    var data := r.mem[r.pin..r.pin + len];
    CopyIn(out, pout, data);
    pout := pout + len;
    assert out[..pout] == old(out[..pout0]) + data;
    r.pin := r.pin + len;
    r.Align();
    ok := true;
  }

  /** What the C code finds at the place of a stored block is that block, if the input reaches. */
  lemma FoundIsStored(mem: seq<byte>, s: nat, data: seq<byte>, len: nat, end: nat)
    requires StoredAt(Number(mem, 0), s, data) && end <= |mem|
    ensures StoredFound(mem, s, len, end) <==> len == |data| && s + 4 + len <= end && len <= U32(end - (s + 4))
    ensures s + 4 + |data| <= end ==> mem[s + 4..s + 4 + |data|] == data
  {
    hide At;
    if s + 4 <= end {
      TwoBytesAt(mem, s);
      TwoBytesAt(mem, s + 2);
    }
    if s + 4 + |data| <= end {
      forall i: nat | i < |data| ensures mem[s + 4 + i] == data[i] {
        ByteAt(mem, s + 4 + i);
      }
    }
  }

  lemma BytesOf(a: byte, b: byte, c: byte, d: byte)
    requires Wide(a) + 256 * b == Wide(c) + 256 * d
    ensures a == c && b == d
  {
  }

  lemma ComplementBytes(a: byte, b: byte, c: byte, d: byte)
    requires Wide(a) + 256 * b == 0xffff - (Wide(c) + 256 * d)
    ensures Wide(a) + c == 255
  {
  }

  /** Length and complement read one byte too far are never those of a block of the same length. */
  lemma ShiftedLength(mem: seq<byte>, s: nat, len: nat, len': nat)
    requires s + 5 <= |mem| && Half(mem, s) == len && Half(mem, s + 2) == 0xffff - len
    requires Half(mem, s + 1) == len' && Half(mem, s + 3) == 0xffff - len'
    ensures len' != len
  {
    ComplementBytes(mem[s], mem[s + 1], mem[s + 2], mem[s + 3]);
    if len' == len {
      BytesOf(mem[s], mem[s + 1], mem[s + 1], mem[s + 2]);
    }
  }

  /** What the C code finds one byte behind the place of a stored block has another length. */
  lemma MisreadDiffers(mem: seq<byte>, s: nat, data: seq<byte>, len: nat, end: nat)
    requires StoredAt(Number(mem, 0), s, data) && StoredFound(mem, s + 1, len, end)
    ensures len != |data|
  {
    hide At;
    TwoBytesAt(mem, s);
    TwoBytesAt(mem, s + 2);
    ShiftedLength(mem, s, |data|, len);
  }

  // ----- one block -----

  /** The output does not take what is being expanded into it. */
  ghost predicate NoRoom(total: Option<seq<byte>>, size: nat) {
    total.None? || |total.value| > size
  }

  /** What decoding a part of the stream comes to: it succeeds exactly when the input and the tables
      are enough and the output has room, and then the output is the expansion. */
  ghost predicate Outcome(ok: bool, r: Reservoir, end: nat, total: Option<seq<byte>>, enough: bool, out: seq<byte>, size: nat)
    reads r
  {
    if ok then r.Pos() == end && total == Some(out) && enough else !enough || NoRoom(total, size)
  }

  /** Casting the room for n bytes to 32 bits does not change whether there is enough. */
  predicate NarrowRoom(n: nat, room: int) {
    0 <= n <= room ==> n <= U32(room)
  }

  /** The casts do not change the outcome of the tests for block b, whose contents begin at bit q. */
  ghost predicate NarrowBlock(q: nat, out: seq<byte>, b: Block, insize: nat, size: nat) {
    match b
    case Stored(data) => NarrowRoom(|data|, insize - (StoredByte(q) + 4)) && NarrowRoom(|data|, size - |out|)
    case Fixed(ts) => NarrowTokens(out, ts, size)
    case Dynamic(_, ts) => NarrowTokens(out, ts, size)
  }

  /** Where PIN stands when block b has been decoded up to bit end: behind a stored block it is aligned
      anew; otherwise it is where the refill before the end-of-block code left it, which is the only
      word boundary for which 15 to 46 bits were held. */
  function StopAt(address: nat, end: nat, b: Block): nat {
    if b.Stored? then NextWord(address, end / 8)
    else NextWord(address, if end >= EndCode(b) then (end - EndCode(b) + 22) / 8 else 0)
  }

  lemma StopUnique(address: nat, end: nat, b: Block, p: nat)
    requires !b.Stored? && 15 <= 8 * p - (end - EndCode(b)) <= 46 && (address + p) % 4 == 0 && end >= EndCode(b)
    ensures p == StopAt(address, end, b)
  {
    WordUnique(address, (end - EndCode(b) + 22) / 8, p);
  }

  /** Length of the code that ends the block, before which the last refill happens. */
  function EndCode(b: Block): nat {
    match b
    case Stored(_) => 0
    case Fixed(_) => LenAt(FixedLit(), END_OF_BLOCK)
    case Dynamic(h, _) => LenAt(LitLens(h), END_OF_BLOCK)
  }

  /** The contents of a stored block, whose header ends at bit q.  If q is not a byte boundary they are
      copied, and the reader stands behind them; if it is, the output is never right. */
  method InflateStored(r: Reservoir, out: array<byte>, pout0: nat, ghost data: seq<byte>) returns (ok: bool, pout: nat)
    requires r.Valid() && r.bits > 0 && pout0 <= out.Length
    modifies r, out
    ensures pout0 <= pout <= out.Length
    ensures ok ==> r.Valid() && r.Aligned() && r.Pos() > old(r.Pos())
    ensures old(StoredAt(r.Stream(), StoredByte(r.Pos()), data)) ==>
      var end := StoredByte(old(r.Pos())) + 4 + |data|;
      if old(r.Pos()) % 8 != 0 then
        && Outcome(ok, r, 8 * end, Some(old(out[..pout0]) + data),
                   && end <= r.pinend && NarrowRoom(|data|, r.pinend - (StoredByte(old(r.Pos())) + 4))
                   && NarrowRoom(|data|, out.Length - pout0), out[..pout], out.Length)
        && (ok ==> r.Limit() == WordLimit(r.address, r.pinend, end) && r.pin == NextWord(r.address, end))
      else !(ok && out[..pout] == old(out[..pout0]) + data)
    ensures NothingThere(r.mem, old(r.Pos()), r.pinend) ==> !ok
  {
    hide StoredAt, StoredFound, WordLimit;
    ghost var q := r.Pos();
    ok, pout := ReadStored(r, out, pout0);
    if StoredAt(r.Stream(), StoredByte(q), data) {
      StoredAlignment(q);
      if q % 8 != 0 {
        FoundIsStored(r.mem, StoredByte(q), data, if ok then pout - pout0 else |data|, r.pinend);
      } else if ok && pout - pout0 == |data| {
        MisreadDiffers(r.mem, StoredByte(q), data, |data|, r.pinend);
      }
    }
  }

  method InflateDynamic(r: Reservoir, zlit: array<nat>, zdist: array<nat>, out: array<byte>, pout0: nat,
                        ghost h: Header, ghost ts: seq<Token>) returns (ok: bool, pout: nat)
    requires r.Valid() && r.Aligned() && pout0 <= out.Length
    requires zlit.Length == zdist.Length == TABLE_SIZE && zlit != zdist
    modifies r, out, zlit, zdist
    ensures pout0 <= pout <= out.Length && r.Valid() && r.Aligned()
    ensures r.Pos() >= old(r.Pos()) && r.Limit() == old(r.Limit())
    ensures old(HeaderAt(r.Stream(), r.Pos(), h))
            && BodyAt(r.Stream(), HeaderEnd(r.Stream(), old(r.Pos()), h), LitLens(h), DistLens(h), ts) ==>
      var e := HeaderEnd(r.Stream(), old(r.Pos()), h);
      Outcome(ok, r, BodyEnd(e, LitLens(h), DistLens(h), ts), Expand(old(out[..pout0]), ts),
              && TablesFit(h) && BodyLast(e, LitLens(h), DistLens(h), ts) + 15 <= r.Limit()
              && NarrowTokens(old(out[..pout0]), ts, out.Length), out[..pout], out.Length)
      && (ok ==> 15 <= 8 * r.pin - BodyLast(e, LitLens(h), DistLens(h), ts) <= 46)
  {
    hide HeaderAt, HeaderEnd, TablesFit, Decodes, LitLens, DistLens, Expand;
    ghost var m, e := r.Stream(), HeaderEnd(r.Stream(), r.Pos(), h);
    pout := pout0;
    ok := ReadHeader(r, zlit, zdist, h);
    if !ok {
      r.StarvedExactly();
      if BodyAt(m, e, LitLens(h), DistLens(h), ts) {
        BodyEndGrows(m, e, LitLens(h), DistLens(h), ts);
      }
      return;
    }
    ok, pout := InflateBody(r, zlit, zdist, out, pout0, LitLens(h), DistLens(h), ts);
  }

  /** The input is long enough for the contents of block b, which begin at bit q: refills, up to bit
      limit, reach the last code of a Huffman-coded block, and the bytes of a stored one are there. */
  ghost predicate Enough(m: nat, q: nat, b: Block, limit: int, size: nat) {
    match b
    case Stored(data) => StoredByte(q) + 4 + |data| <= size
    case Fixed(ts) => BodyLast(q, FixedLit(), FixedDist(), ts) + 15 <= limit
    case Dynamic(h, ts) => BodyLast(HeaderEnd(m, q, h), LitLens(h), DistLens(h), ts) + 15 <= limit
  }

  /** Reading a stored block aligns the reader anew. */
  function LimitAfter(q: nat, b: Block, limit: int, address: nat, size: nat): int {
    if b.Stored? then WordLimit(address, size, StoredByte(q) + 4 + |b.data|) else limit
  }

  /** Between its beginning and its last code a block has no bits to spare. */
  lemma BlockLast(m: nat, q: nat, kind: nat, b: Block)
    requires ContentsAt(m, q, kind, b)
    ensures q <= ContentsEnd(m, q, b) - EndCode(b)
    ensures b.Stored? ==> q + 32 <= ContentsEnd(m, q, b) && ContentsEnd(m, q, b) % 8 == 0
  {
    hide HeaderAt, HeaderEnd, StoredAt;
    match b
    case Stored(data) =>
    case Fixed(ts) => BodyEndGrows(m, q, FixedLit(), FixedDist(), ts);
    case Dynamic(h, ts) => DynamicLast(m, q, h, ts);
  }

  lemma EndCodeBound(m: nat, q: nat, kind: nat, b: Block)
    requires ContentsAt(m, q, kind, b)
    ensures EndCode(b) <= MAX_BITS
  {
    hide KraftSum, BodyAt, LitLens, DistLens, ItemsAt, HeadAt;
  }

  /** Behind a Huffman-coded block. */
  lemma ContentsStop(m: nat, q: nat, kind: nat, b: Block, address: nat, p: nat)
    requires ContentsAt(m, q, kind, b) && !b.Stored? && (address + p) % 4 == 0
    requires 15 <= 8 * p - (ContentsEnd(m, q, b) - EndCode(b)) <= 46
    ensures p == StopAt(address, ContentsEnd(m, q, b), b)
  {
    hide ContentsAt, ContentsEnd, EndCode;
    BlockLast(m, q, kind, b);
    StopUnique(address, ContentsEnd(m, q, b), b, p);
  }

  lemma DynamicLast(m: nat, q: nat, h: Header, ts: seq<Token>)
    requires HeaderAt(m, q, h) && BodyAt(m, HeaderEnd(m, q, h), LitLens(h), DistLens(h), ts)
    ensures q <= BodyEnd(HeaderEnd(m, q, h), LitLens(h), DistLens(h), ts) - LenAt(LitLens(h), END_OF_BLOCK)
  {
    hide ItemsEnd, ItemsAt, BodyEnd, BodyAt, CodeLengthCode, HeadAt, ApplyAll, LitLens, DistLens, AllLens, Fits;
    ItemsEndGrows(m, q + 14 + 3 * h.nclen, CodeLengthCode(m, q + 14, h.nclen), h.items);
    BodyEndGrows(m, HeaderEnd(m, q, h), LitLens(h), DistLens(h), ts);
  }

  /** The contents of a block of the given type, at bit q of the stream m. */
  method InflateContents(r: Reservoir, kind: nat, zlit: array<nat>, zdist: array<nat>, out: array<byte>, pout0: nat,
                         ghost b: Block, ghost m: nat, ghost q: nat, ghost limit: int, ghost before: seq<byte>)
    returns (ok: bool, pout: nat)
    requires r.Valid() && r.Aligned() && r.bits > 0 && kind < 3 && pout0 <= out.Length
    requires m == r.Stream() && q == r.Pos() && limit == r.Limit() && before == out[..pout0]
    requires zlit.Length == zdist.Length == TABLE_SIZE && zlit != zdist
    modifies r, out, zlit, zdist
    ensures pout0 <= pout <= out.Length
    ensures ok ==> r.Valid() && r.Aligned() && r.Pos() >= q
    ensures StoredReadable(q, b) && ContentsAt(m, q, kind, b) ==>
      && Outcome(ok, r, ContentsEnd(m, q, b), ExpandBlock(before, b),
                 && Enough(m, q, b, limit, r.pinend) && RoomForTables(b)
                 && NarrowBlock(q, before, b, r.pinend, out.Length), out[..pout], out.Length)
      && (ok ==> r.Limit() == LimitAfter(q, b, limit, r.address, r.pinend)
                 && r.pin == StopAt(r.address, ContentsEnd(m, q, b), b))
    ensures kind == 0 && NothingThere(r.mem, q, r.pinend) ==> !ok
  {
    hide BodyAt, BodyEnd, HeaderAt, Expand, TablesFit, StoredAt, Decodes, LitLens, DistLens, HeaderEnd, WordLimit,
      NextWord, NarrowTokens, NarrowRoom;
    if kind == 0 {
      ok, pout := InflateStored(r, out, pout0, if b.Stored? then b.data else []);
    } else if kind == 1 {
      var deflit, defdist := DefaultTables();
      ok, pout := InflateBody(r, deflit, defdist, out, pout0, FixedLit(), FixedDist(), if b.Fixed? then b.tokens else []);
    } else {
      ok, pout := InflateDynamic(r, zlit, zdist, out, pout0,
        if b.Dynamic? then b.header else Header(0, 0, 0, []), if b.Dynamic? then b.tokens else []);
    }
    if ok && kind != 0 && ContentsAt(m, q, kind, b) {
      ContentsStop(m, q, kind, b, r.address, r.pin);
    }
  }

  // ----- the block loop -----

  ghost predicate AllTablesFit(bs: seq<Block>)
    decreases bs
  {
    bs == [] || (RoomForTables(bs[0]) && AllTablesFit(bs[1..]))
  }

  lemma {:induction false} BlocksEndGrows(m: nat, pos: nat, bs: seq<Block>)
    requires BlocksAt(m, pos, bs)
    ensures BlocksEnd(m, pos, bs) >= pos
    decreases bs
  {
    ContentsEndGrows(m, pos + 3, At(m, pos + 1, 2), bs[0]);
    if |bs| > 1 {
      BlocksEndGrows(m, BlockEnd(m, pos, bs[0]), bs[1..]);
    } else {
      assert bs[1..] == [];
    }
  }

  lemma ContentsEndGrows(m: nat, q: nat, kind: nat, b: Block)
    requires ContentsAt(m, q, kind, b)
    ensures ContentsEnd(m, q, b) >= q && kind < 3
  {
    match b
    case Stored(data) =>
    case Fixed(ts) => BodyEndGrows(m, q, FixedLit(), FixedDist(), ts);
    case Dynamic(h, ts) => DynamicEndGrows(m, q, h, ts);
  }

  lemma DynamicEndGrows(m: nat, q: nat, h: Header, ts: seq<Token>)
    requires HeaderAt(m, q, h) && BodyAt(m, HeaderEnd(m, q, h), LitLens(h), DistLens(h), ts)
    ensures BodyEnd(HeaderEnd(m, q, h), LitLens(h), DistLens(h), ts) >= q
  {
    hide ItemsEnd, ItemsAt, BodyEnd, BodyAt, CodeLengthCode, HeadAt, ApplyAll, LitLens, DistLens, AllLens, Fits;
    ItemsEndGrows(m, q + 14 + 3 * h.nclen, CodeLengthCode(m, q + 14, h.nclen), h.items);
    BodyEndGrows(m, HeaderEnd(m, q, h), LitLens(h), DistLens(h), ts);
  }

  /** The input is long enough for all blocks, the first of which begins at bit pos.  Every header
      needs a refill too. */
  ghost predicate AllEnough(m: nat, pos: nat, bs: seq<Block>, limit: int, address: nat, size: nat)
    decreases bs
  {
    bs == []
    || (&& pos + 15 <= limit && Enough(m, pos + 3, bs[0], limit, size)
        && AllEnough(m, BlockEnd(m, pos, bs[0]), bs[1..], LimitAfter(pos + 3, bs[0], limit, address, size), address, size))
  }

  /** If the literal codes of all blocks are complete or small, all tables fit. */
  lemma {:induction false} DenseBlocksFit(m: nat, pos: nat, bs: seq<Block>)
    requires BlocksAt(m, pos, bs)
    requires forall i: nat :: i < |bs| && bs[i].Dynamic? ==> Dense(bs[i].header)
    ensures AllTablesFit(bs)
    decreases bs
  {
    hide HeaderAt, BodyAt, BodyEnd, Dense, TablesFit, StoredAt;
    if bs[0].Dynamic? {
      DenseTablesFit(m, pos + 3, bs[0].header);
    }
    if |bs| > 1 {
      forall i: nat | i < |bs[1..]| && bs[1..][i].Dynamic? ensures Dense(bs[1..][i].header) {
        var k := i + 1;
        assert bs[1..][i] == bs[k];
      }
      DenseBlocksFit(m, BlockEnd(m, pos, bs[0]), bs[1..]);
    } else {
      assert bs[1..] == [];
    }
  }

  /** The casts to 32 bits do not change the outcome for any block. */
  ghost predicate AllNarrow(m: nat, pos: nat, out: seq<byte>, bs: seq<Block>, insize: nat, size: nat)
    decreases bs
  {
    bs == []
    || (&& NarrowBlock(pos + 3, out, bs[0], insize, size)
        && match ExpandBlock(out, bs[0])
           case None => true
           case Some(out') => AllNarrow(m, BlockEnd(m, pos, bs[0]), out', bs[1..], insize, size))
  }

  /** They never do when input and output have less than 2^32 bytes. */
  lemma {:induction false} SmallIsNarrow(m: nat, pos: nat, out: seq<byte>, bs: seq<Block>, insize: nat, size: nat)
    requires insize < 0x1_0000_0000 && size < 0x1_0000_0000 && !NoRoom(ExpandBlocks(out, bs), size)
    ensures AllNarrow(m, pos, out, bs, insize, size)
    decreases bs
  {
    if bs != [] {
      var out' := ExpandBlock(out, bs[0]).value;
      ExpandBlocksGrows(out', bs[1..]);
      if !bs[0].Stored? {
        SmallTokens(out, bs[0].tokens, size);
      }
      SmallIsNarrow(m, BlockEnd(m, pos, bs[0]), out', bs[1..], insize, size);
    }
  }

  /** Input and tables are enough, and no difference of 2^32 or more is cut to a small one. */
  ghost predicate Sufficient(m: nat, pos: nat, out: seq<byte>, bs: seq<Block>, limit: int, address: nat, insize: nat,
                             size: nat) {
    AllEnough(m, pos, bs, limit, address, insize) && AllTablesFit(bs) && AllNarrow(m, pos, out, bs, insize, size)
  }

  lemma {:induction false} ExpandBlocksGrows(out: seq<byte>, bs: seq<Block>)
    requires ExpandBlocks(out, bs).Some?
    ensures |ExpandBlocks(out, bs).value| >= |out|
    decreases bs
  {
    if bs != [] {
      if !bs[0].Stored? {
        ExpandGrows(out, bs[0].tokens);
      }
      ExpandBlocksGrows(ExpandBlock(out, bs[0]).value, bs[1..]);
    }
  }

  /** The blocks still to come are bs; they lead to the same end and output as all of them. */
  ghost predicate BlockProgress(m: nat, pos: nat, out: seq<byte>, bs: seq<Block>, end: nat, total: Option<seq<byte>>) {
    && BlocksAt(m, pos, bs) && AllReadable(m, pos, bs)
    && BlocksEnd(m, pos, bs) == end && ExpandBlocks(out, bs) == total
  }

  lemma BlockWithin(m: nat, pos: nat, bs: seq<Block>)
    requires BlocksAt(m, pos, bs)
    ensures BlockEnd(m, pos, bs[0]) <= BlocksEnd(m, pos, bs)
    ensures |bs| == 1 ==> BlockEnd(m, pos, bs[0]) == BlocksEnd(m, pos, bs)
  {
    var p := BlockEnd(m, pos, bs[0]);
    if |bs| > 1 {
      BlocksEndGrows(m, p, bs[1..]);
    } else {
      assert bs[1..] == [] && BlocksEnd(m, p, bs[1..]) == p;
    }
  }

  lemma FirstBlock(m: nat, pos: nat, out: seq<byte>, bs: seq<Block>, end: nat, total: Option<seq<byte>>)
    requires BlockProgress(m, pos, out, bs, end, total)
    ensures bs != [] && StoredReadable(pos + 3, bs[0]) && ContentsAt(m, pos + 3, At(m, pos + 1, 2), bs[0])
    ensures BlockEnd(m, pos, bs[0]) <= end
  {
    BlockWithin(m, pos, bs);
  }

  /** The state of the block loop: before a block, or after the last one. */
  ghost predicate LoopState(last: nat, m: nat, pos: nat, out: seq<byte>, bs: seq<Block>, end: nat,
                            total: Option<seq<byte>>) {
    if last == 0 then BlockProgress(m, pos, out, bs, end, total) else pos == end && total == Some(out)
  }

  lemma AfterBlock(m: nat, pos: nat, out: seq<byte>, bs: seq<Block>, end: nat, total: Option<seq<byte>>,
                   out': seq<byte>)
    requires BlockProgress(m, pos, out, bs, end, total) && ExpandBlock(out, bs[0]) == Some(out')
    ensures LoopState(At(m, pos, 1), m, BlockEnd(m, pos, bs[0]), out', bs[1..], end, total)
    ensures At(m, pos, 1) != 0 ==> bs[1..] == []
  {
    BlockWithin(m, pos, bs);
    assert |bs| == 1 ==> bs[1..] == [] && ExpandBlocks(out', bs[1..]) == Some(out');
  }

  lemma NoRoomForBlock(m: nat, pos: nat, out: seq<byte>, bs: seq<Block>, end: nat, total: Option<seq<byte>>, size: nat)
    requires BlockProgress(m, pos, out, bs, end, total) && NoRoom(ExpandBlock(out, bs[0]), size)
    ensures NoRoom(total, size)
  {
    if total.Some? {
      ExpandBlocksGrows(ExpandBlock(out, bs[0]).value, bs[1..]);
    }
  }

  /** Reads the 3-bit header of a block. */
  method ReadBlockHead(r: Reservoir) returns (ok: bool, last: nat, kind: nat)
    requires r.Valid() && r.Aligned()
    modifies r
    ensures r.Valid() && r.Aligned() && r.Limit() == old(r.Limit())
    ensures ok <==> old(r.Pos()) + 15 <= r.Limit()
    ensures if ok then last == At(r.Stream(), old(r.Pos()), 1) && kind == At(r.Stream(), old(r.Pos()) + 1, 2)
                       && r.bits > 0 && r.Pos() == old(r.Pos()) + 3
            else r.Starved() && r.Pos() == old(r.Pos())
  {
    last, kind := 0, 0;
    ok := r.Fetch();
    if ok {
      last := r.Take(1);
      kind := r.Take(2);
    }
  }

  /** Reads the header of a block, at bit p of the stream m, and its contents. */
  method InflateOneBlock(r: Reservoir, zlit: array<nat>, zdist: array<nat>, out: array<byte>, pout0: nat,
                         ghost b: Block, ghost m: nat, ghost p: nat, ghost limit: int, ghost before: seq<byte>)
    returns (ok: bool, last: nat, pout: nat)
    requires r.Valid() && r.Aligned() && pout0 <= out.Length
    requires zlit.Length == zdist.Length == TABLE_SIZE && zlit != zdist
    requires m == r.Stream() && p == r.Pos() && limit == r.Limit() && before == out[..pout0]
    modifies r, out, zlit, zdist
    ensures pout0 <= pout <= out.Length
    ensures ok ==> r.Valid() && r.Aligned() && r.Pos() > p && last == At(m, p, 1)
    ensures StoredReadable(p + 3, b) && ContentsAt(m, p + 3, At(m, p + 1, 2), b) ==>
      && Outcome(ok, r, ContentsEnd(m, p + 3, b), ExpandBlock(before, b),
                 && p + 15 <= limit && Enough(m, p + 3, b, limit, r.pinend) && RoomForTables(b)
                 && NarrowBlock(p + 3, before, b, r.pinend, out.Length), out[..pout], out.Length)
      && (ok ==> r.Limit() == LimitAfter(p + 3, b, limit, r.address, r.pinend)
                 && r.pin == StopAt(r.address, ContentsEnd(m, p + 3, b), b))
    ensures At(m, p + 1, 2) == 0 && NothingThere(r.mem, p + 3, r.pinend) ==> !ok
  {
    hide NothingThere, ContentsAt, ContentsEnd, ExpandBlock, StoredReadable, RoomForTables, At, Enough, LimitAfter,
      WordLimit, NarrowBlock, StopAt;
    pout := pout0;
    var kind;
    ok, last, kind := ReadBlockHead(r);
    if !ok {
      return;
    }
    if kind >= 3 {
      NoSuchBlock(m, p + 3, kind, b);
      return false, last, pout;
    }
    ok, pout := InflateContents(r, kind, zlit, zdist, out, pout0, b, m, p + 3, limit, before);
  }

  lemma NoSuchBlock(m: nat, q: nat, kind: nat, b: Block)
    requires kind >= 3
    ensures !ContentsAt(m, q, kind, b)
  {
  }

  /** A block that cannot be decoded means the blocks cannot. */
  lemma FailedBlock(m: nat, pos: nat, out: seq<byte>, bs: seq<Block>, end: nat, total: Option<seq<byte>>,
                    limit: int, address: nat, insize: nat, size: nat)
    requires BlockProgress(m, pos, out, bs, end, total)
    requires !(&& pos + 15 <= limit && Enough(m, pos + 3, bs[0], limit, insize) && RoomForTables(bs[0])
               && NarrowBlock(pos + 3, out, bs[0], insize, size)) || NoRoom(ExpandBlock(out, bs[0]), size)
    ensures !Sufficient(m, pos, out, bs, limit, address, insize, size) || NoRoom(total, size)
  {
    FirstBlock(m, pos, out, bs, end, total);
    if NoRoom(ExpandBlock(out, bs[0]), size) {
      NoRoomForBlock(m, pos, out, bs, end, total, size);
    }
  }

  /** A block that has been decoded leaves the sufficiency of the rest. */
  lemma DecodedBlock(m: nat, pos: nat, out: seq<byte>, bs: seq<Block>, limit: int, address: nat, insize: nat, size: nat,
                     out': seq<byte>)
    requires bs != [] && pos + 15 <= limit && Enough(m, pos + 3, bs[0], limit, insize) && RoomForTables(bs[0])
    requires NarrowBlock(pos + 3, out, bs[0], insize, size) && ExpandBlock(out, bs[0]) == Some(out')
    ensures var limit' := LimitAfter(pos + 3, bs[0], limit, address, insize);
      Sufficient(m, pos, out, bs, limit, address, insize, size)
      <==> Sufficient(m, BlockEnd(m, pos, bs[0]), out', bs[1..], limit', address, insize, size)
  {
  }

  /** The first stored block that the C code cannot find is one where it finds nothing. */
  ghost predicate Lost(mem: seq<byte>, pos: nat, bs: seq<Block>, end: nat)
    decreases bs
  {
    bs != [] && if StoredReadable(pos + 3, bs[0]) then Lost(mem, BlockEnd(Number(mem, 0), pos, bs[0]), bs[1..], end)
                else NothingThere(mem, pos + 3, end)
  }

  /** After a block the C code could find, such a block is still to come. */
  lemma StillLost(mem: seq<byte>, pos: nat, bs: seq<Block>, end: nat, m: nat)
    requires m == Number(mem, 0) && BlocksAt(m, pos, bs) && Lost(mem, pos, bs, end)
    ensures bs != [] && ContentsAt(m, pos + 3, At(m, pos + 1, 2), bs[0])
    ensures if StoredReadable(pos + 3, bs[0]) then
              var p := BlockEnd(m, pos, bs[0]);
              At(m, pos, 1) == 0 && BlocksAt(m, p, bs[1..]) && Lost(mem, p, bs[1..], end)
            else At(m, pos + 1, 2) == 0 && NothingThere(mem, pos + 3, end)
  {
    assert |bs| == 1 ==> bs[1..] == [];
  }

  function LastOf(bs: seq<Block>): Block {
    if bs == [] then Fixed([]) else bs[|bs| - 1]
  }

  /** Reads blocks until one is marked last. */
  method InflateBlocks(r: Reservoir, zlit: array<nat>, zdist: array<nat>, out: array<byte>, pout0: nat,
                       ghost bs: seq<Block>, ghost m: nat, ghost p: nat, ghost limit0: int, ghost before: seq<byte>)
    returns (ok: bool, pout: nat)
    requires r.Valid() && r.Aligned() && pout0 <= out.Length
    requires zlit.Length == zdist.Length == TABLE_SIZE && zlit != zdist
    requires m == r.Stream() && p == r.Pos() && limit0 == r.Limit() && before == out[..pout0]
    modifies r, out, zlit, zdist
    ensures pout0 <= pout <= out.Length
    ensures ok ==> r.Valid() && r.Aligned() && r.Pos() >= p
    ensures BlocksAt(m, p, bs) && AllReadable(m, p, bs) ==>
      Outcome(ok, r, BlocksEnd(m, p, bs), ExpandBlocks(before, bs),
              Sufficient(m, p, before, bs, limit0, r.address, r.pinend, out.Length), out[..pout], out.Length)
      && (ok ==> r.pin == StopAt(r.address, BlocksEnd(m, p, bs), LastOf(bs)))
    ensures BlocksAt(m, p, bs) && Lost(r.mem, p, bs, r.pinend) ==> !ok
  {
    hide NothingThere, Lost, StoredReadable, BlocksAt, ContentsAt, ContentsEnd, ExpandBlock, Sufficient, Enough,
      LimitAfter, RoomForTables, NarrowBlock, StopAt, LastOf;
    ghost var rest, end, total := bs, BlocksEnd(m, p, bs), ExpandBlocks(before, bs);
    ghost var carried := BlocksAt(m, p, bs) && AllReadable(m, p, bs);
    ghost var lost := BlocksAt(m, p, bs) && Lost(r.mem, p, bs, r.pinend);
    ghost var all := Sufficient(m, p, before, bs, limit0, r.address, r.pinend, out.Length);
    ghost var pos, limit, sofar := p, limit0, before;
    pout := pout0;
    var last := 0;
    while last == 0
      invariant r.Valid() && r.Aligned() && pout0 <= pout <= out.Length && p <= pos
      invariant pos == r.Pos() && limit == r.Limit() && sofar == out[..pout]
      invariant carried ==> LoopState(last, m, pos, sofar, rest, end, total)
      invariant carried ==> all == Sufficient(m, pos, sofar, rest, limit, r.address, r.pinend, out.Length)
      invariant carried && last == 0 ==> LastOf(rest) == LastOf(bs)
      invariant carried && last != 0 ==> rest == [] && r.pin == StopAt(r.address, end, LastOf(bs))
      invariant lost ==> last == 0 && BlocksAt(m, pos, rest) && Lost(r.mem, pos, rest, r.pinend)
      decreases 8 * |r.mem| - pos + (if last == 0 then 1 else 0)
    {
      ghost var b := if rest == [] then Fixed([]) else rest[0];
      if carried {
        FirstBlock(m, pos, sofar, rest, end, total);
      }
      if lost {
        StillLost(r.mem, pos, rest, r.pinend, m);
      }
      ok, last, pout := InflateOneBlock(r, zlit, zdist, out, pout, b, m, pos, limit, sofar);
      if !ok {
        if carried {
          FailedBlock(m, pos, sofar, rest, end, total, limit, r.address, r.pinend, out.Length);
        }
        return;
      }
      if carried {
        AfterBlock(m, pos, sofar, rest, end, total, out[..pout]);
        DecodedBlock(m, pos, sofar, rest, limit, r.address, r.pinend, out.Length, out[..pout]);
        LastLeft(m, pos, rest);
      }
      rest, pos, limit, sofar := if carried || lost then rest[1..] else rest, r.Pos(), r.Limit(), out[..pout];
    }
    ok := true;
    if carried {
      NothingMore(m, pos, sofar, limit, r.address, r.pinend, out.Length);
    }
  }

  lemma LastLeft(m: nat, pos: nat, bs: seq<Block>)
    requires BlocksAt(m, pos, bs)
    ensures if At(m, pos, 1) == 0 then LastOf(bs[1..]) == LastOf(bs)
            else LastOf(bs) == bs[0] && BlockEnd(m, pos, bs[0]) == BlocksEnd(m, pos, bs)
  {
    BlockWithin(m, pos, bs);
  }

  lemma NothingMore(m: nat, pos: nat, out: seq<byte>, limit: int, address: nat, insize: nat, size: nat)
    ensures Sufficient(m, pos, out, [], limit, address, insize, size)
  {
  }

  // ----- how much input the refills need -----

  lemma LimitStays(address: nat, size: nat, e: nat)
    requires e + 4 <= size
    ensures WordLimit(address, size, e) == 8 * LastWord(address, size)
  {
    Boundary(address, size);
  }

  /** With four bytes behind a block, refills fail only at its end-of-block code. */
  lemma BlockEnough(m: nat, q: nat, kind: nat, b: Block, address: nat, size: nat)
    requires ContentsAt(m, q, kind, b) && ContentsEnd(m, q, b) + 32 <= 8 * size
    ensures var limit := 8 * LastWord(address, size);
      && (Enough(m, q, b, limit, size) <==> b.Stored? || ContentsEnd(m, q, b) - EndCode(b) + 15 <= limit)
      && LimitAfter(q, b, limit, address, size) == limit
    ensures q <= ContentsEnd(m, q, b) - EndCode(b)
    ensures b.Stored? ==> q + 32 <= ContentsEnd(m, q, b)
  {
    hide WordLimit, HeaderAt, HeaderEnd, StoredAt;
    match b
    case Stored(data) => LimitStays(address, size, StoredByte(q) + 4 + |data|);
    case Fixed(ts) => BodyEndGrows(m, q, FixedLit(), FixedDist(), ts);
    case Dynamic(h, ts) => DynamicLast(m, q, h, ts);
  }

  /** With four bytes behind the blocks, the input is long enough exactly when the last refill, in
      front of the last end-of-block code, is at least 15 bits before the last word boundary. */
  lemma {:induction false} LastRefillDecides(m: nat, pos: nat, bs: seq<Block>, address: nat, size: nat)
    requires BlocksAt(m, pos, bs) && BlocksEnd(m, pos, bs) + 32 <= 8 * size
    ensures var limit := 8 * LastWord(address, size);
      AllEnough(m, pos, bs, limit, address, size)
      <==> bs[|bs| - 1].Stored? || BlocksEnd(m, pos, bs) - EndCode(bs[|bs| - 1]) + 15 <= limit
    ensures pos + 3 <= BlocksEnd(m, pos, bs) - EndCode(bs[|bs| - 1])
    ensures bs[|bs| - 1].Stored? ==> pos + 35 <= BlocksEnd(m, pos, bs)
    decreases bs
  {
    hide ContentsAt, ContentsEnd, Enough, LimitAfter, EndCode;
    Boundary(address, size);
    BlockWithin(m, pos, bs);
    BlockEnough(m, pos + 3, At(m, pos + 1, 2), bs[0], address, size);
    var p, limit := BlockEnd(m, pos, bs[0]), 8 * LastWord(address, size);
    if |bs| > 1 {
      LastRefillDecides(m, p, bs[1..], address, size);
    } else {
      assert bs[1..] == [] && AllEnough(m, p, [], limit, address, size);
    }
  }

  /** With the checksum right behind the blocks, refills find enough input unless it ends three bytes
      past a word boundary and the last end-of-block code, with the padding behind it, is shorter
      than seven bits. */
  lemma ChecksumRoom(m: nat, pos: nat, bs: seq<Block>, address: nat, size: nat)
    requires BlocksAt(m, pos, bs) && size == (BlocksEnd(m, pos, bs) + 7) / 8 + 4
    ensures var last, pad := bs[|bs| - 1], 8 * (size - 4) - BlocksEnd(m, pos, bs);
      AllEnough(m, pos, bs, 8 * LastWord(address, size), address, size)
      <==> last.Stored? || (address + size) % 4 != 3 || EndCode(last) + pad >= 7
  {
    hide BlocksAt, BlocksEnd, AllEnough;
    LastRefillDecides(m, pos, bs, address, size);
  }

  /** So a stream that ends in a block with fixed codes is never cut short. */
  lemma FixedRoom(m: nat, pos: nat, bs: seq<Block>, address: nat, size: nat)
    requires BlocksAt(m, pos, bs) && size == (BlocksEnd(m, pos, bs) + 7) / 8 + 4 && bs[|bs| - 1].Fixed?
    ensures AllEnough(m, pos, bs, 8 * LastWord(address, size), address, size)
  {
    ChecksumRoom(m, pos, bs, address, size);
  }
}
