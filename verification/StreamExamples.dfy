/** Valid input that elf_zlib_inflate_and_verify refuses, written out byte by byte. */
module StreamExamples {
  import opened Options
  import opened Bits
  import opened CanonicalCode
  import opened HiddenSymbol
  import opened HuffmanTable
  import opened TableSpace
  import opened BitReader
  import opened MatchCopy
  import opened Deflate
  import opened InflateBlock
  import opened DynamicHeader
  import opened Inflate
  import opened DeflateTables
  import opened Adler32
  import opened ZlibStreams

  // ----- reading single fields -----

  /** Powers of two that need no unfolding. */
  function Power(k: nat): (p: nat)
    requires k <= 8
    ensures p == Pow2(k)
  {
    assert Pow2(0) == 1 && Pow2(1) == 2 && Pow2(2) == 4 && Pow2(3) == 8 && Pow2(4) == 16;
    assert Pow2(5) == 32 && Pow2(6) == 64 && Pow2(7) == 128 && Pow2(8) == 256;
    if k == 0 then 1 else if k == 1 then 2 else if k == 2 then 4 else if k == 3 then 8 else if k == 4 then 16
    else if k == 5 then 32 else if k == 6 then 64 else if k == 7 then 128 else 256
  }

  /** The n bits that begin at bit k of byte i, in two bytes with value h, have the value v. */
  lemma Field(mem: seq<byte>, i: nat, k: nat, n: nat, h: nat, v: nat)
    requires i + 1 < |mem| && h == Octet(mem, i) + 256 * Octet(mem, i + 1) && k < 8 && n <= 8
    requires v == h / Power(k) % Power(n)
    ensures At(Number(mem, 0), 8 * i + k, n) == v
  {
    var w := Shr(Number(mem, 0), 8 * i);
    TwoBytesAt(mem, i);
    ShrLow(w, k, 16 - k);
    LowLow(Shr(w, k), n, 16 - k);
    ShrShr(Number(mem, 0), 8 * i, k);
    ShiftMeaning(h, k);
    ShiftMeaning(h / Power(k), n);
  }

  // ----- a stream that is cut short -----

  /** One block with dynamic codes and no tokens, whose end-of-block code has one bit; its checksum;
      and three bytes that are only read when PIN is aligned. */
  const SHORT: seq<byte> := [120, 1, 5, 192, 129, 8, 0, 0, 0, 0, 32, 127, 235, 3, 0, 0, 0, 1, 0, 0, 0]

  /** The first place has 1 bit, the symbols 0 and 1 have 2. */
  const SHORT_CLENS: seq<nat> := [2, 2, 0, 0, 0, 0, 0, 0, 0, 0, 0, 0, 0, 0, 0, 0, 0, 0, 1]
  const SHORT_ITEMS: seq<Item> := [Item(18, 127), Item(18, 107), Item(1, 0), Item(0, 0)]

  function ShortHeader(): Header {
    Header(257, 1, 18, SHORT_ITEMS)
  }

  function ShortBlocks(): seq<Block> {
    [Dynamic(ShortHeader(), [])]
  }

  lemma ShortCounts(m: nat)
    requires m == Number(SHORT, 0)
    ensures At(m, 16, 1) == 1 && At(m, 17, 2) == 2
    ensures At(m, 19, 5) == 0 && At(m, 24, 5) == 0 && At(m, 29, 4) == 14
  {
    hide At, Number, Low, Shr, Pow2;
    Field(SHORT, 2, 0, 1, 49157, 1);
    Field(SHORT, 2, 1, 2, 49157, 2);
    Field(SHORT, 2, 3, 5, 49157, 0);
    Field(SHORT, 3, 0, 5, 33216, 0);
    Field(SHORT, 3, 5, 4, 33216, 14);
  }

  lemma ShortPlaces(m: nat)
    requires m == Number(SHORT, 0)
    ensures At(m, 33, 3) == At(m, 36, 3) == 0 && At(m, 39, 3) == 1 && At(m, 42, 3) == 2 && At(m, 84, 3) == 2
  {
    hide At, Number, Low, Shr, Pow2;
    Field(SHORT, 4, 1, 3, 2177, 0);
    Field(SHORT, 4, 4, 3, 2177, 0);
    Field(SHORT, 4, 7, 3, 2177, 1);
    Field(SHORT, 5, 2, 3, 8, 2);
    Field(SHORT, 10, 4, 3, 32544, 2);
  }

  lemma ShortZeros(m: nat)
    requires m == Number(SHORT, 0)
    ensures At(m, 45, 40) == 0
  {
    hide At, Number, Low, Shr, Pow2;
    Field(SHORT, 5, 5, 3, 8, 0);
    FourBytesAt(SHORT, 6);
    AtSplit(m, 45, 3, 32);
    Field(SHORT, 10, 0, 5, 32544, 0);
    AtSplit(m, 45, 35, 5);
    ShlZero(3);
    ShlZero(35);
  }

  lemma {:induction false} ShlZero(n: nat)
    ensures Shl(0, n) == 0
  {
    ShlIsTimes(0, n);
  }

  lemma ZeroWithin(m: nat, p: nat, n: nat, q: nat, k: nat)
    requires At(m, p, n) == 0 && p <= q && q + k <= p + n
    ensures At(m, q, k) == 0
  {
    hide At;
    AtSplit(m, p, q - p, p + n - q);
    ShlIsTimes(At(m, q, p + n - q), q - p);
    AtSplit(m, q, k, p + n - q - k);
  }

  lemma ShortItemBits(m: nat)
    requires m == Number(SHORT, 0)
    ensures At(m, 87, 1) == 0 && At(m, 88, 7) == 127 && At(m, 95, 1) == 0 && At(m, 96, 7) == 107
    ensures At(m, 103, 2) == 3 && At(m, 105, 2) == 1 && At(m, 107, 1) == 0
  {
    hide At, Number, Low, Shr, Pow2;
    Field(SHORT, 10, 7, 1, 32544, 0);
    Field(SHORT, 11, 0, 7, 60287, 127);
    Field(SHORT, 11, 7, 1, 60287, 0);
    Field(SHORT, 12, 0, 7, 1003, 107);
    Field(SHORT, 12, 7, 2, 1003, 3);
    Field(SHORT, 13, 1, 2, 3, 1);
    Field(SHORT, 13, 3, 1, 3, 0);
  }

  lemma ShortClens(m: nat)
    requires m == Number(SHORT, 0)
    ensures CodeLengthCode(m, 33, 18) == SHORT_CLENS
  {
    hide At, Number, Low, Shr, Pow2;
    ShortPlaces(m);
    ShortZeros(m);
    forall s: nat | s < 19 ensures OrderedField(m, 33, 18, s) == SHORT_CLENS[s] {
      if 4 <= PlaceOf(s) < 17 {
        ZeroWithin(m, 45, 40, 33 + 3 * PlaceOf(s), 3);
      }
    }
  }

  // ----- its codes -----

  lemma ShortCode(clens: seq<nat>)
    requires clens == SHORT_CLENS
    ensures RevCode(clens, 18) == 0 && RevCode(clens, 0) == 1 && RevCode(clens, 1) == 3
    ensures Fits(clens)
  {
    CountRun(clens, 0, 2, 2, 1);
    CountRun(clens, 2, 18, 0, 1);
    CountRun(clens, 18, 19, 1, 1);
    assert FirstCode(clens, 1) == 0 && FirstCode(clens, 2) == 2;
    assert CountBelow(clens, 2, 0) == 0 && CountBelow(clens, 2, 1) == 1;
    KraftRun(clens, 0, 2, 2, Pow2(13));
    KraftZeros(clens, 2, 18);
    KraftRun(clens, 18, 19, 1, Pow2(14));
  }

  /** Nothing but the end-of-block symbol has a code. */
  function OnlyEnd(): (lit: seq<nat>)
    ensures |lit| == 257
  {
    Copies(138, 0) + Copies(118, 0) + [1]
  }

  lemma ShortItems()
    ensures LitLens(ShortHeader()) == OnlyEnd() && DistLens(ShortHeader()) == [0]
    ensures ApplyAll([], SHORT_ITEMS) == Some(OnlyEnd() + [0])
  {
    hide Copies;
    var a, b := Copies(138, 0), Copies(118, 0);
    assert SHORT_ITEMS[1..] == [Item(18, 107), Item(1, 0), Item(0, 0)];
    assert SHORT_ITEMS[1..][1..] == [Item(1, 0), Item(0, 0)];
    assert SHORT_ITEMS[1..][1..][1..] == [Item(0, 0)];
    assert SHORT_ITEMS[1..][1..][1..][1..] == [];
    assert [] + a == a;
    var all := OnlyEnd() + [0];
    assert all[..257] == OnlyEnd() && all[257..] == [0];
  }

  lemma OnlyEndCode(lit: seq<nat>)
    requires lit == OnlyEnd()
    ensures lit[END_OF_BLOCK] == 1 && RevCode(lit, END_OF_BLOCK) == 0
    ensures Fits(lit) && RoomFor(lit)
  {
    CountRun(lit, 0, 256, 0, 1);
    KraftZeros(lit, 0, 256);
    assert FirstCode(lit, 1) == 0;
    Pow2Mono(14, 15);
    assert Fits(lit);
    NineBitsFit(lit);
  }

  lemma NoDistances()
    ensures Fits([0]) && RoomFor([0])
  {
    KraftZeros([0], 0, 1);
    NineBitsFit([0]);
  }

  /** A symbol stands where its reversed code does. */
  lemma CodeAt(m: nat, pos: nat, lens: seq<nat>, v: nat)
    requires v < |lens| && lens[v] > 0 && At(m, pos, lens[v]) == RevCode(lens, v)
    ensures SymbolAt(m, pos, lens, v)
  {
  }

  lemma ShortItemsAt(m: nat)
    requires m == Number(SHORT, 0)
    ensures ItemsAt(m, 87, SHORT_CLENS, SHORT_ITEMS) && ItemsEnd(87, SHORT_CLENS, SHORT_ITEMS) == 107
  {
    hide At, Number, SymbolAt, RevCode, Fits;
    ShortItemBits(m);
    ShortCode(SHORT_CLENS);
    CodeAt(m, 87, SHORT_CLENS, 18);
    CodeAt(m, 95, SHORT_CLENS, 18);
    CodeAt(m, 103, SHORT_CLENS, 1);
    CodeAt(m, 105, SHORT_CLENS, 0);
    LowNone(m, 105);
    LowNone(m, 107);
    assert SHORT_ITEMS[1..] == [Item(18, 107), Item(1, 0), Item(0, 0)];
    assert SHORT_ITEMS[1..][1..] == [Item(1, 0), Item(0, 0)];
    assert SHORT_ITEMS[1..][1..][1..] == [Item(0, 0)];
    assert SHORT_ITEMS[1..][1..][1..][1..] == [];
  }

  lemma LowNone(m: nat, pos: nat)
    ensures At(m, pos, 0) == 0
  {
  }

  lemma ShortHeadAt(m: nat)
    requires m == Number(SHORT, 0)
    ensures HeadAt(m, 19, ShortHeader())
  {
    hide At, Number, Fits, CodeLengthCode;
    ShortCounts(m);
    ShortClens(m);
    ShortCode(SHORT_CLENS);
  }

  lemma ShortHeaderAt(m: nat)
    requires m == Number(SHORT, 0)
    ensures HeaderAt(m, 19, ShortHeader()) && HeaderEnd(m, 19, ShortHeader()) == 107
  {
    hide At, Number, HeadAt, ItemsAt, ItemsEnd, Fits, CodeLengthCode, LitLens, DistLens, RevCode;
    ShortHeadAt(m);
    ShortClens(m);
    ShortCode(SHORT_CLENS);
    ShortItems();
    ShortItemsAt(m);
    OnlyEndCode(OnlyEnd());
    NoDistances();
  }

  lemma ShortBlocksAt(m: nat)
    requires m == Number(SHORT, 0)
    ensures BlocksAt(m, 16, ShortBlocks()) && BlocksEnd(m, 16, ShortBlocks()) == 108
    ensures AllReadable(m, 16, ShortBlocks()) && AllTablesFit(ShortBlocks())
    ensures EndCode(ShortBlocks()[0]) == 1
  {
    hide At, Number, HeaderAt, HeaderEnd, LitLens, DistLens, SymbolAt, RevCode, RoomFor;
    ShortHeaderAt(m);
    ShortCounts(m);
    ShortItems();
    ShortItemBits(m);
    OnlyEndCode(OnlyEnd());
    NoDistances();
    CodeAt(m, 107, OnlyEnd(), END_OF_BLOCK);
    assert ShortBlocks()[1..] == [];
  }

  /** A whole zlib stream of 18 bytes that carries no output; its tables have room.  Its last code has
      one bit, with four bits of padding behind it. */
  lemma CutShort()
    ensures WholeStream(SHORT, 18, ShortBlocks()) && ExpandBlocks([], ShortBlocks()) == Some([])
    ensures StreamEnd(SHORT, 0, ShortBlocks()) == 108 && AllTablesFit(ShortBlocks())
    ensures EndCode(LastOf(ShortBlocks())) == 1 && !LastOf(ShortBlocks()).Stored?
  {
    hide BlocksAt, BlocksEnd, AllReadable, AllTablesFit, Number, EndCode;
    ShortBlocksAt(Number(SHORT, 0));
    assert ShortBlocks()[1..] == [] && [ShortBlocks()][1..] == [];
    LastChecksum(SHORT, 18, 0, 0, 0, 1);
    assert Checksum([]) == 1;
  }

  /** A checksum of four given bytes. */
  lemma LastChecksum(mem: seq<byte>, size: nat, a: byte, b: byte, c: byte, d: byte)
    requires 4 <= size <= |mem|
    requires mem[size - 4] == a && mem[size - 3] == b && mem[size - 2] == c && mem[size - 1] == d
    ensures BigEndian(mem[size - 4..size], 4) == 256 * (256 * (256 * Wide(a) + b) + c) + d
  {
    var s := mem[size - 4..size];
    assert s == [a, b, c, d];
    assert BigEndian(s, 1) == a && BigEndian(s, 2) == 256 * Wide(a) + b;
  }

  /** The decoder refuses that stream at every fourth address. */
  method InflateShort(address: nat, zlit: array<nat>, zdist: array<nat>, out: array<byte>) returns (ok: bool)
    requires zlit.Length == zdist.Length == TABLE_SIZE && zlit != zdist && out.Length == 0
    modifies zlit, zdist, out
    ensures ok <==> address % 4 != 1
  {
    hide WholeStream, ExpandBlocks, ExpandStreams, AllSufficient, Walked, WalkEnd, Undecodable, AllTablesFit, EndCode,
      LastOf, StreamEnd, BigEndian, Checksum;
    CutShort();
    WholeStreamAccepted(SHORT, address, 18, ShortBlocks(), 0);
    WholeChecksum(SHORT, 18, ShortBlocks());
    ok := InflateAndVerify(SHORT, address, 18, zlit, zdist, out, [ShortBlocks()], []);
  }

  lemma WholeChecksum(mem: seq<byte>, size: nat, bs: seq<Block>)
    requires WholeStream(mem, size, bs)
    ensures 4 <= size <= |mem| && BigEndian(mem[size - 4..size], 4) == Checksum(ExpandBlocks([], bs).value)
  {
  }

  // ----- a stored block that is not found -----

  /** A block with fixed codes and three literals of nine bits, which ends at bit 53, and a stored block
      of one byte; the checksum; and three more bytes. */
  const UNALIGNED: seq<byte> := [120, 1, 154, 48, 97, 2, 32, 1, 0, 254, 255, 65, 5, 85, 1, 242, 0, 0, 0]

  function UnalignedBlocks(): seq<Block> {
    [Fixed([Literal(144), Literal(144), Literal(144)]), Stored([65])]
  }

  lemma UnalignedHeads(m: nat)
    requires m == Number(UNALIGNED, 0)
    ensures At(m, 16, 1) == 0 && At(m, 17, 2) == 1 && At(m, 53, 1) == 1 && At(m, 54, 2) == 0
  {
    hide At, Number, Low, Shr, Pow2;
    Field(UNALIGNED, 2, 0, 1, 12442, 0);
    Field(UNALIGNED, 2, 1, 2, 12442, 1);
    Field(UNALIGNED, 6, 5, 1, 288, 1);
    Field(UNALIGNED, 6, 6, 2, 288, 0);
  }

  lemma UnalignedCodes(m: nat)
    requires m == Number(UNALIGNED, 0)
    ensures At(m, 19, 9) == At(m, 28, 9) == At(m, 37, 9) == 19 && At(m, 46, 7) == 0
  {
    hide At, Number, Low, Shr, Pow2;
    NineBits(m, 19);
    Field(UNALIGNED, 2, 3, 8, 12442, 19);
    Field(UNALIGNED, 3, 3, 1, 24880, 0);
    NineBits(m, 28);
    Field(UNALIGNED, 3, 4, 8, 24880, 19);
    Field(UNALIGNED, 4, 4, 1, 609, 0);
    NineBits(m, 37);
    Field(UNALIGNED, 4, 5, 8, 609, 19);
    Field(UNALIGNED, 5, 5, 1, 8194, 0);
    Field(UNALIGNED, 5, 6, 7, 8194, 0);
  }

  lemma NineBits(m: nat, pos: nat)
    ensures At(m, pos, 9) == At(m, pos, 8) + 256 * At(m, pos + 8, 1)
  {
    AtSplit(m, pos, 8, 1);
    ByteTimes(At(m, pos + 8, 1));
  }

  lemma UnalignedData(m: nat)
    requires m == Number(UNALIGNED, 0)
    ensures StoredAt(m, 7, [65]) && NothingThere(UNALIGNED, 56, 16)
  {
    hide At, Number;
    TwoBytesAt(UNALIGNED, 7);
    TwoBytesAt(UNALIGNED, 9);
    ByteAt(UNALIGNED, 11);
  }

  /** The fixed code of byte 144 is 400, in nine bits, and that of the end of a block is 0. */
  lemma FixedCodes(lit: seq<nat>)
    requires lit == FixedLit()
    ensures RevCode(lit, 144) == 19 && RevCode(lit, END_OF_BLOCK) == 0
  {
    FixedFirst(lit);
    CountRun(lit, 0, 144, 8, 9);
    CountRun(lit, 0, 144, 8, 7);
    CountRun(lit, 144, 256, 9, 7);
    assert Rev(400, 9) == 19 && Rev(0, 7) == 0;
  }

  lemma UnalignedBody(m: nat)
    requires m == Number(UNALIGNED, 0)
    ensures var ts := UnalignedBlocks()[0].tokens;
      BodyAt(m, 19, FixedLit(), FixedDist(), ts) && BodyEnd(19, FixedLit(), FixedDist(), ts) == 53
  {
    hide At, Number, SymbolAt, RevCode;
    var lit, ts := FixedLit(), UnalignedBlocks()[0].tokens;
    UnalignedCodes(m);
    FixedCodes(lit);
    CodeAt(m, 19, lit, 144);
    CodeAt(m, 28, lit, 144);
    CodeAt(m, 37, lit, 144);
    CodeAt(m, 46, lit, END_OF_BLOCK);
    assert ts[1..] == [Literal(144), Literal(144)] && ts[1..][1..] == [Literal(144)] && ts[1..][1..][1..] == [];
  }

  /** A whole zlib stream of 16 bytes that carries four bytes of output.  The header of its stored
      block ends on a byte boundary, and where the C code looks for the data there are none. */
  lemma NotFound()
    ensures HeaderOk(UNALIGNED[0], UNALIGNED[1])
    ensures BlocksAt(Number(UNALIGNED, 0), 16, UnalignedBlocks())
    ensures BlocksEnd(Number(UNALIGNED, 0), 16, UnalignedBlocks()) == 96
    ensures ExpandBlocks([], UnalignedBlocks()) == Some([144, 144, 144, 65])
    ensures Lost(UNALIGNED, 16, UnalignedBlocks(), 16) && !AllReadable(Number(UNALIGNED, 0), 16, UnalignedBlocks())
  {
    hide At, Number, BodyAt, BodyEnd, StoredAt, NothingThere;
    var m, bs := Number(UNALIGNED, 0), UnalignedBlocks();
    UnalignedHeads(m);
    UnalignedBody(m);
    UnalignedData(m);
    UnalignedOutput(bs[0].tokens);
    var three: seq<byte> := [144, 144, 144];
    assert three + [65] == [144, 144, 144, 65];
    assert bs[1..] == [Stored([65])] && bs[1..][1..] == [];
  }

  lemma UnalignedOutput(ts: seq<Token>)
    requires ts == UnalignedBlocks()[0].tokens
    ensures Expand([], ts) == Some([144, 144, 144])
  {
    var none: seq<byte>, b: byte := [], 144;
    assert none + [b] == [b] && [b] + [b] == [b, b] && [b, b] + [b] == [b, b, b];
    assert ts[1..] == [Literal(144), Literal(144)] && ts[1..][1..] == [Literal(144)] && ts[1..][1..][1..] == [];
  }

  /** The decoder refuses that stream at every address and for every size of the output. */
  method RefuseUnaligned(address: nat, zlit: array<nat>, zdist: array<nat>, out: array<byte>) returns (ok: bool)
    requires zlit.Length == zdist.Length == TABLE_SIZE && zlit != zdist
    modifies zlit, zdist, out
    ensures !ok
  {
    hide Number, BlocksAt, Lost, BlocksEnd, AllReadable, AllSufficient, ExpandStreams;
    NotFound();
    ok := InflateAndVerify(UNALIGNED, address, 16, zlit, zdist, out, [], UnalignedBlocks());
  }

  // ----- a second stream that is not always found -----

  /** Twice the same stream of eight bytes: one block with fixed codes and no tokens, and its checksum. */
  const TWICE: seq<byte> := [120, 1, 3, 0, 0, 0, 0, 1, 120, 1, 3, 0, 0, 0, 0, 1, 0, 0, 0]

  function EmptyBlocks(): seq<Block> {
    [Fixed([])]
  }

  lemma FixedEnd()
    ensures FixedLit()[END_OF_BLOCK] == 7 && FixedLit()[65] == 8
  {
  }

  /** A stream without tokens at byte s. */
  lemma EmptyStreamAt(mem: seq<byte>, s: nat)
    requires s + 4 <= |mem| && HeaderOk(mem[s], mem[s + 1]) && mem[s + 2] == 3 && mem[s + 3] == 0
    ensures StreamAt(mem, s, EmptyBlocks()) && StreamEnd(mem, s, EmptyBlocks()) == 8 * s + 26
    ensures EndCode(LastOf(EmptyBlocks())) == 7 && !LastOf(EmptyBlocks()).Stored?
    ensures ExpandBlocks([], EmptyBlocks()) == Some([]) && AllTablesFit(EmptyBlocks())
  {
    hide At, Number, Low, Shr, Pow2, SymbolAt, RevCode, FixedLit, FixedDist;
    var bs, m, i := EmptyBlocks(), Number(mem, 0), s + 2;
    Field(mem, i, 0, 1, 3, 1);
    Field(mem, i, 1, 2, 3, 1);
    Field(mem, i, 3, 7, 3, 0);
    FixedCodes(FixedLit());
    FixedEnd();
    CodeAt(m, 8 * i + 3, FixedLit(), END_OF_BLOCK);
    assert bs[1..] == [];
  }

  function TwoStreams(): seq<seq<Block>> {
    [EmptyBlocks(), EmptyBlocks()]
  }

  /** Both streams are whole, and the second begins right behind the checksum of the first.  The decoder
      finds it exactly if the first begins on a word boundary. */
  lemma TwiceFound(address: nat)
    ensures Concatenated(TWICE, 16, 0, TwoStreams()) && ExpandStreams([], TwoStreams()) == Some([])
    ensures AllFollowed(TWICE, address, 0, TwoStreams()) <==> address % 4 == 0
  {
    hide StreamAt, StreamEnd, ExpandBlocks, AllTablesFit, EndCode, LastOf, EmptyBlocks;
    var streams := TwoStreams();
    EmptyStreamAt(TWICE, 0);
    EmptyStreamAt(TWICE, 8);
    assert streams[1..] == [EmptyBlocks()] && streams[1..][1..] == [];
  }

  /** On a word boundary there is input enough for both. */
  lemma TwiceEnough(address: nat)
    requires address % 4 == 0
    ensures AllSufficient(TWICE, address, 16, 0, [], TwoStreams(), 0)
  {
    hide StreamAt, StreamEnd, AllTablesFit, EndCode, LastOf, EmptyBlocks, StreamSufficient, ExpandBlocks;
    var streams := TwoStreams();
    EmptyStreamAt(TWICE, 0);
    EmptyStreamAt(TWICE, 8);
    TwiceFound(address);
    StreamFollowed(TWICE, address, 0, EmptyBlocks());
    EmptyEnough(address, 0);
    EmptyEnough(address, 8);
    assert streams[1..] == [EmptyBlocks()] && streams[1..][1..] == [];
  }

  lemma EmptyEnough(address: nat, s: nat)
    requires address % 4 == 0 && (s == 0 || s == 8)
    ensures StreamSufficient(TWICE, address, 16, s, [], EmptyBlocks(), 0)
  {
    hide BlocksAt, BlocksEnd, AllReadable, Number, AllTablesFit, FixedLit, FixedDist;
    EmptyStreamAt(TWICE, s);
    var bs := EmptyBlocks();
    FixedEnd();
    assert bs[1..] == [];
  }

  lemma EmptyStop(address: nat)
    requires address % 4 != 0
    ensures StreamStop(TWICE, address, 0, EmptyBlocks()) == 8 - address % 4
  {
    hide StreamEnd, EndCode, LastOf, EmptyBlocks, NextWord, StreamAt, AllTablesFit, ExpandBlocks;
    EmptyStreamAt(TWICE, 0);
    WordUnique(address, 5, 8 - address % 4);
  }

  lemma FirstHeader()
    ensures TWICE[0] == UNALIGNED[0] == 120 && TWICE[1] == UNALIGNED[1] == 1 && HeaderOk(120, 1)
  {
  }

  lemma NoHeaders()
    ensures !HeaderOk(TWICE[5], TWICE[6]) && !HeaderOk(TWICE[6], TWICE[7]) && !HeaderOk(TWICE[7], TWICE[8])
  {
  }

  /** Elsewhere it looks where there is no header. */
  lemma TwiceLost(address: nat)
    requires address % 4 != 0
    ensures var streams := [EmptyBlocks()];
      && Walked(TWICE, address, 16, 0, streams) && WalkEnd(TWICE, address, 0, streams) == 8 - address % 4
      && Undecodable(TWICE, 8 - address % 4, 16, [])
  {
    hide StreamAt, StreamEnd, StreamStop, EndCode, LastOf, EmptyBlocks, AllTablesFit, ExpandBlocks, HeaderOk, Walked,
      WalkEnd;
    FirstHeader();
    NoHeaders();
    EmptyStreamAt(TWICE, 0);
    EmptyStop(address);
    OneWalked(TWICE, address, 16, EmptyBlocks());
  }

  lemma OneWalked(mem: seq<byte>, address: nat, size: nat, bs: seq<Block>)
    requires 4 < size <= |mem| && StreamAt(mem, 0, bs)
    ensures Walked(mem, address, size, 0, [bs]) && WalkEnd(mem, address, 0, [bs]) == StreamStop(mem, address, 0, bs)
  {
    hide StreamAt, StreamStop;
    assert [bs][1..] == [];
  }

  /** The decoder accepts the two streams exactly on word boundaries. */
  method InflateTwice(address: nat, zlit: array<nat>, zdist: array<nat>, out: array<byte>) returns (ok: bool)
    requires zlit.Length == zdist.Length == TABLE_SIZE && zlit != zdist && out.Length == 0
    modifies zlit, zdist, out
    ensures ok <==> address % 4 == 0
  {
    hide Concatenated, AllFollowed, ExpandStreams, AllSufficient, Walked, WalkEnd, Undecodable, BigEndian, EmptyBlocks,
      ExpandBlocks;
    TwiceFound(address);
    if address % 4 == 0 {
      TwiceEnough(address);
      AllFound(TWICE, address, 16, 0, TwoStreams());
      LastChecksum(TWICE, 16, 0, 0, 0, 1);
      ok := InflateAndVerify(TWICE, address, 16, zlit, zdist, out, TwoStreams(), []);
    } else {
      TwiceLost(address);
      ok := InflateAndVerify(TWICE, address, 16, zlit, zdist, out, [EmptyBlocks()], []);
    }
  }

  // ----- all headers -----

  /** A stream without tokens that begins with the given two bytes. */
  function WithHeader(cmf: byte, flg: byte): seq<byte> {
    [cmf, flg, 3, 0, 0, 0, 0, 1, 0, 0, 0]
  }

  /** On a word boundary the decoder accepts it exactly if the header is good.  With the usual first byte,
      0x78, that are the four headers of the compression levels; 78 20, which asks for a preset
      dictionary, is refused. */
  method InflateWithHeader(cmf: byte, flg: byte, address: nat, zlit: array<nat>, zdist: array<nat>, out: array<byte>)
    returns (ok: bool)
    requires zlit.Length == zdist.Length == TABLE_SIZE && zlit != zdist && out.Length == 0 && address % 4 == 0
    modifies zlit, zdist, out
    ensures ok <==> HeaderOk(cmf, flg)
    ensures cmf == 0x78 ==> (ok <==> flg == 0x01 || flg == 0x5e || flg == 0x9c || flg == 0xda)
    ensures cmf % 16 != 8 || cmf >= 0x80 ==> !ok
  {
    hide Walked, WalkEnd, ExpandStreams, AllSufficient, Undecodable, WholeStream, BigEndian, Checksum, ExpandBlocks,
      EmptyBlocks, AllTablesFit, HeaderOk;
    UsualHeaders(flg);
    OtherMethods(cmf, flg);
    var mem := WithHeader(cmf, flg);
    if HeaderOk(cmf, flg) {
      WithHeaderWhole(cmf, flg);
      WholeStreamAccepted(mem, address, 8, EmptyBlocks(), 0);
      WholeChecksum(mem, 8, EmptyBlocks());
      WithHeaderRoom(cmf, flg, address);
      ok := InflateAndVerify(mem, address, 8, zlit, zdist, out, [EmptyBlocks()], []);
    } else {
      BadHeader(cmf, flg, address);
      ok := InflateAndVerify(mem, address, 8, zlit, zdist, out, [], []);
    }
  }

  lemma UsualHeaders(flg: byte)
    ensures HeaderOk(0x78, flg) <==> flg == 0x01 || flg == 0x5e || flg == 0x9c || flg == 0xda
  {
    var level, dict, check := flg / 64, flg / 32 % 2, flg % 32;
    HeaderLaw(8, 7, check, dict, level, 0x78, flg);
  }

  lemma OtherMethods(cmf: byte, flg: byte)
    ensures cmf % 16 != 8 || cmf >= 0x80 ==> !HeaderOk(cmf, flg)
  {
  }

  lemma WithHeaderWhole(cmf: byte, flg: byte)
    requires HeaderOk(cmf, flg)
    ensures WholeStream(WithHeader(cmf, flg), 8, EmptyBlocks()) && ExpandBlocks([], EmptyBlocks()) == Some([])
  {
    hide StreamAt, StreamEnd, ExpandBlocks, AllTablesFit, EndCode, LastOf, EmptyBlocks, HeaderOk, BigEndian;
    var mem := WithHeader(cmf, flg);
    EmptyStreamAt(mem, 0);
    LastChecksum(mem, 8, 0, 0, 0, 1);
    assert [EmptyBlocks()][1..] == [] && Checksum([]) == 1;
  }

  lemma WithHeaderRoom(cmf: byte, flg: byte, address: nat)
    requires HeaderOk(cmf, flg) && address % 4 == 0
    ensures AllTablesFit(EmptyBlocks()) && (address + 8) % 4 != 3
  {
    hide AllTablesFit;
    EmptyStreamAt(WithHeader(cmf, flg), 0);
  }

  lemma BadHeader(cmf: byte, flg: byte, address: nat)
    requires !HeaderOk(cmf, flg)
    ensures var mem := WithHeader(cmf, flg);
      Walked(mem, address, 8, 0, []) && WalkEnd(mem, address, 0, []) == 0 && Undecodable(mem, 0, 8, [])
  {
  }

  // ----- the checksum of several streams -----

  /** A stream that carries the byte 65, and right behind it one that carries nothing. */
  const PAIR: seq<byte> := [120, 1, 115, 4, 0, 0, 66, 0, 66, 120, 1, 3, 0, 0, 0, 0, 1, 0, 0, 0]

  function ByteBlocks(): seq<Block> {
    [Fixed([Literal(65)])]
  }

  function PairStreams(): seq<seq<Block>> {
    [ByteBlocks(), EmptyBlocks()]
  }

  lemma ByteBits(m: nat)
    requires m == Number(PAIR, 0)
    ensures At(m, 16, 1) == 1 && At(m, 17, 2) == 1 && At(m, 19, 8) == 142 && At(m, 27, 7) == 0
  {
    hide At, Number, Low, Shr, Pow2;
    Field(PAIR, 2, 0, 1, 1139, 1);
    Field(PAIR, 2, 1, 2, 1139, 1);
    Field(PAIR, 2, 3, 8, 1139, 142);
    Field(PAIR, 3, 3, 7, 4, 0);
  }

  lemma ByteStreamAt()
    ensures StreamAt(PAIR, 0, ByteBlocks()) && StreamEnd(PAIR, 0, ByteBlocks()) == 34
    ensures EndCode(LastOf(ByteBlocks())) == 7 && !LastOf(ByteBlocks()).Stored?
    ensures ExpandBlocks([], ByteBlocks()) == Some([65])
  {
    hide At, Number, Low, Shr, Pow2, SymbolAt, RevCode, FixedLit, FixedDist;
    var m, bs := Number(PAIR, 0), ByteBlocks();
    ByteBits(m);
    FixedCodes(FixedLit());
    ByteCode(FixedLit());
    FixedEnd();
    CodeAt(m, 19, FixedLit(), 65);
    CodeAt(m, 27, FixedLit(), END_OF_BLOCK);
    var none: seq<byte>, b: byte := [], 65;
    assert none + [b] == [b];
    assert bs[1..] == [] && bs[0].tokens[1..] == [];
  }

  /** The fixed code of byte 65 is 113, in eight bits. */
  lemma ByteCode(lit: seq<nat>)
    requires lit == FixedLit()
    ensures RevCode(lit, 65) == 142
  {
    FixedFirst(lit);
    CountRun(lit, 0, 65, 8, 8);
    assert Rev(113, 8) == 142;
  }

  lemma PairConcatenated()
    ensures BigEndian(PAIR[5..9], 4) == Checksum([65]) && BigEndian(PAIR[13..17], 4) == Checksum([])
    ensures Concatenated(PAIR, 17, 0, PairStreams()) && ExpandStreams([], PairStreams()) == Some([65])
  {
    hide StreamAt, StreamEnd, ExpandBlocks, AllTablesFit, EndCode, LastOf, EmptyBlocks, ByteBlocks;
    var streams := PairStreams();
    ByteStreamAt();
    EmptyStreamAt(PAIR, 9);
    BlocksApart([65], [], EmptyBlocks());
    var b: seq<byte> := [65];
    assert b + [] == b;
    assert streams[1..] == [EmptyBlocks()] && streams[1..][1..] == [];
    PairChecksums();
  }

  lemma PairChecksums()
    ensures BigEndian(PAIR[5..9], 4) == Checksum([65]) == 0x42_0042
    ensures BigEndian(PAIR[13..17], 4) == Checksum([]) == 1
  {
    LastChecksum(PAIR, 9, 0, 66, 0, 66);
    LastChecksum(PAIR, 17, 0, 0, 0, 1);
    ByteSums([65]);
    assert Checksum([]) == 1;
  }

  lemma ByteSums(data: seq<byte>)
    requires data == [65]
    ensures Checksum(data) == 0x42_0042
  {
    assert Sums(data, 0) == (1, 0);
    assert Sums(data, 1) == (66, 66);
  }

  lemma ByteStop(address: nat)
    ensures if address % 4 == 3 then AllFollowed(PAIR, address, 0, PairStreams())
            else StreamStop(PAIR, address, 0, ByteBlocks()) == 8 - address % 4
  {
    hide StreamEnd, EndCode, LastOf, ByteBlocks, EmptyBlocks, NextWord, StreamAt, ExpandBlocks;
    var streams := PairStreams();
    ByteStreamAt();
    assert streams[1..] == [EmptyBlocks()];
    if address % 4 != 3 {
      WordUnique(address, 6, 8 - address % 4);
    }
  }

  lemma PairLost(address: nat)
    requires address % 4 != 3
    ensures var streams := [ByteBlocks()];
      && Walked(PAIR, address, 17, 0, streams) && WalkEnd(PAIR, address, 0, streams) == 8 - address % 4
      && Undecodable(PAIR, 8 - address % 4, 17, [])
  {
    hide StreamAt, StreamEnd, StreamStop, EndCode, LastOf, ByteBlocks, ExpandBlocks, HeaderOk, Walked, WalkEnd;
    ByteStreamAt();
    ByteStop(address);
    NoPairHeaders();
    OneWalked(PAIR, address, 17, ByteBlocks());
  }

  lemma NoPairHeaders()
    ensures !HeaderOk(PAIR[6], PAIR[7]) && !HeaderOk(PAIR[7], PAIR[8]) && !HeaderOk(PAIR[8], PAIR[9])
  {
  }

  /** Both streams are whole, each with its own checksum.  The decoder refuses them at every address: on
      a word boundary for the second it finds it, but compares its checksum with that of the whole
      output. */
  method RefusePair(address: nat, zlit: array<nat>, zdist: array<nat>, out: array<byte>) returns (ok: bool)
    requires zlit.Length == zdist.Length == TABLE_SIZE && zlit != zdist
    modifies zlit, zdist, out
    ensures !ok
  {
    hide Concatenated, AllFollowed, ExpandStreams, AllSufficient, Walked, WalkEnd, Undecodable, BigEndian, Checksum,
      ByteBlocks, ExpandBlocks;
    PairConcatenated();
    PairChecksums();
    if address % 4 == 3 {
      ByteStop(address);
      AllFound(PAIR, address, 17, 0, PairStreams());
      ok := InflateAndVerify(PAIR, address, 17, zlit, zdist, out, PairStreams(), []);
    } else {
      PairLost(address);
      ok := InflateAndVerify(PAIR, address, 17, zlit, zdist, out, [ByteBlocks()], []);
    }
  }

  // ----- differences of 2^32 bytes -----

  /** n matches of length 258 and distance 1. */
  function Runs(n: nat): seq<Token> {
    if n == 0 then [] else [Match(285, 0, 0, 0)] + Runs(n - 1)
  }

  /** A byte repeated to 2^32 + 1 bytes. */
  function WideTokens(): seq<Token> {
    [Literal(0)] + (Runs(16647160) + [Match(267, 1, 0, 0)])
  }

  lemma RunExpands(out: seq<byte>, ts: seq<Token>) returns (out': seq<byte>)
    requires out != [] && ts != [] && ts[0] == Match(285, 0, 0, 0)
    ensures |out'| == |out| + 258 && Expand(out, ts) == Expand(out', ts[1..])
  {
    hide Repeat;
    out' := Repeat(out, 1, 258);
    assert ExpandToken(out, ts[0]) == Some(out');
  }

  lemma {:induction false} RunsExpand(out: seq<byte>, n: nat, rest: seq<Token>) returns (out': seq<byte>)
    requires out != []
    ensures |out'| == |out| + 258 * n && Expand(out, Runs(n) + rest) == Expand(out', rest)
    decreases n
  {
    hide Expand;
    if n == 0 {
      out' := out;
      assert Runs(0) + rest == rest;
    } else {
      var ts := Runs(n) + rest;
      assert ts[0] == Match(285, 0, 0, 0) && ts[1..] == Runs(n - 1) + rest;
      out' := RunExpands(out, ts);
      out' := RunsExpand(out', n - 1, rest);
    }
  }

  /** These tokens fill a buffer of 2^32 + 1 bytes, but the first match is refused: the room for it, 2^32
      bytes, is cut to none. */
  lemma WideRefused()
    ensures Expand([], WideTokens()).Some? && |Expand([], WideTokens()).value| == 0x1_0000_0001
    ensures !NarrowTokens([], WideTokens(), 0x1_0000_0001)
  {
    hide Runs, Repeat, NarrowTokens;
    var b: seq<byte>, n: nat, last := [0], 16647160, [Match(267, 1, 0, 0)];
    var none: seq<byte> := [];
    assert none + [0] == b;
    var ts := WideTokens();
    assert ts[0] == Literal(0) && ts[1..] == Runs(n) + last;
    var out := RunsExpand(b, n, last);
    assert last[1..] == [];
    FirstRunRefused(n, last, 0x1_0000_0001);
    NarrowFirst([], ts, 0x1_0000_0001, b);
  }

  lemma NarrowFirst(out: seq<byte>, ts: seq<Token>, size: nat, out': seq<byte>)
    requires ts != [] && ExpandToken(out, ts[0]) == Some(out') && !NarrowTokens(out', ts[1..], size)
    ensures !NarrowTokens(out, ts, size)
  {
  }

  lemma FirstRunRefused(n: nat, rest: seq<Token>, size: nat)
    requires n > 0 && size == 0x1_0000_0001
    ensures !NarrowTokens([0], Runs(n) + rest, size)
  {
    assert (Runs(n) + rest)[0] == Match(285, 0, 0, 0);
    assert U32(0x1_0000_0000) == 0;
  }
}
