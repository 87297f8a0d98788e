/** elf_zlib_inflate and elf_zlib_inflate_and_verify: the zlib wrapper of RFC 1950, and streams that
    follow one another. */
module ZlibStreams {
  import opened Options
  import opened Bits
  import opened HuffmanTable
  import opened BitReader
  import opened MatchCopy
  import opened Deflate
  import opened InflateBlock
  import opened Inflate
  import opened Adler32

  // ----- one stream -----

  /** The checks made on the two header bytes: method 8, window size at most 7, no preset
      dictionary, and the header checksum. */
  predicate HeaderOk(cmf: byte, flg: byte) {
    cmf % 16 == 8 && cmf / 16 <= 7 && flg / 32 % 2 == 0 && (Wide(cmf) * 256 + flg) % 31 == 0
  }

  /** Section 2.2 of RFC 1950.  The first byte has the method in four bits and the window size in four;
      the second has five check bits, the flag for a preset dictionary, and the compression level in
      two.  Accepted are method 8, a window size of at most 7, no dictionary, and check bits that make
      the two bytes, read as one number, a multiple of 31. */
  lemma HeaderLaw(cm: nat, window: nat, check: nat, dict: nat, level: nat, cmf: byte, flg: byte)
    requires cm < 16 && window < 16 && check < 32 && dict < 2 && level < 4
    requires cmf == cm + 16 * window && flg == check + 32 * dict + 64 * level
    ensures HeaderOk(cmf, flg)
       <==> cm == 8 && window <= 7 && dict == 0 && (256 * (cm + 16 * window) + check + 32 * dict + 64 * level) % 31 == 0
  {
    assert flg / 32 == dict + 2 * level;
  }

  /** Whatever the window size and level, some choice of the check bits is accepted, and no other. */
  lemma OneCheck(window: nat, level: nat, c: nat) returns (check: nat)
    requires window <= 7 && level < 4 && c < 32
    ensures check < 32 && HeaderOk(8 + 16 * window, check + 64 * level)
    ensures HeaderOk(8 + 16 * window, c + 64 * level) ==> c == check
  {
    var rest := (256 * (8 + 16 * window) + 64 * level) % 31;
    NeverMultiple(window, level);
    check := 31 - rest;
    CheckFits(256 * (8 + 16 * window) + 64 * level, rest, check);
    HeaderLaw(8, window, check, 0, level, 8 + 16 * window, check + 64 * level);
    HeaderLaw(8, window, c, 0, level, 8 + 16 * window, c + 64 * level);
    CheckFits(256 * (8 + 16 * window) + 64 * level, rest, c);
  }

  /** Without check bits the number is never a multiple of 31: 256, 4096 and 64 leave 8, 4 and 2. */
  lemma NeverMultiple(window: nat, level: nat)
    requires window <= 7 && level < 4
    ensures (256 * (8 + 16 * window) + 64 * level) % 31 != 0
  {
    var k := 66 + 132 * window + 2 * level;
    assert 256 * (8 + 16 * window) + 64 * level == 31 * k + (2 + 4 * window + 2 * level);
  }

  lemma CheckFits(x: nat, rest: nat, c: nat)
    requires rest == x % 31 && 0 < rest && c < 32
    ensures (x + c) % 31 == 0 <==> c == 31 - rest
  {
  }

  /** The two header bytes, and PIN moved to a word boundary. */
  method ReadZlibHeader(r: Reservoir) returns (ok: bool)
    requires r.Valid() && r.pinend - r.pin > 4
    modifies r
    ensures ok <==> HeaderOk(r.mem[old(r.pin)], r.mem[old(r.pin) + 1])
    ensures ok ==> r.Valid() && r.Aligned() && r.Pos() == 8 * (old(r.pin) + 2)
    ensures ok ==> r.Limit() == WordLimit(r.address, r.pinend, old(r.pin) + 2)
  {
    var cmf, flg := r.mem[r.pin], r.mem[r.pin + 1];
    if cmf % 16 != 8 || cmf / 16 > 7 || flg / 32 % 2 != 0 || (Wide(cmf) * 256 + flg) % 31 != 0 {
      return false;
    }
    r.pin := r.pin + 2;
    r.val := 0;
    r.bits := 0;
    r.Align();
    ok := true;
  }

  /** The zlib stream at byte s: its header, and its blocks, which the C code can find. */
  ghost predicate StreamAt(mem: seq<byte>, s: nat, bs: seq<Block>) {
    var m := Number(mem, 0);
    s + 2 <= |mem| && HeaderOk(mem[s], mem[s + 1]) && BlocksAt(m, 8 * (s + 2), bs) && AllReadable(m, 8 * (s + 2), bs)
  }

  /** The bit at which the blocks of the stream at byte s end. */
  function StreamEnd(mem: seq<byte>, s: nat, bs: seq<Block>): nat {
    BlocksEnd(Number(mem, 0), 8 * (s + 2), bs)
  }

  /** The byte up to which the input has been read then, a word boundary. */
  function StreamStop(mem: seq<byte>, address: nat, s: nat, bs: seq<Block>): nat {
    StopAt(address, StreamEnd(mem, s, bs), LastOf(bs))
  }

  /** Input, tables and the width of the differences are enough for the stream at byte s. */
  ghost predicate StreamSufficient(mem: seq<byte>, address: nat, insize: nat, s: nat, out: seq<byte>, bs: seq<Block>,
                                   size: nat) {
    Sufficient(Number(mem, 0), 8 * (s + 2), out, bs, WordLimit(address, insize, s + 2), address, insize, size)
  }

  /** No stream can be decoded at byte s: there is no header, or its blocks have a stored one that the C
      code cannot find. */
  ghost predicate Undecodable(mem: seq<byte>, s: nat, size: nat, bs: seq<Block>)
    requires s + 2 <= |mem|
  {
    || !HeaderOk(mem[s], mem[s + 1])
    || (BlocksAt(Number(mem, 0), 8 * (s + 2), bs) && Lost(mem, 8 * (s + 2), bs, size))
  }

  /** The zlib stream that begins at PIN. */
  method InflateStream(r: Reservoir, zlit: array<nat>, zdist: array<nat>, out: array<byte>, pout0: nat,
                       ghost bs: seq<Block>, ghost s: nat, ghost before: seq<byte>) returns (ok: bool, pout: nat)
    requires r.Valid() && r.pinend - r.pin > 4 && pout0 <= out.Length && s == r.pin && before == out[..pout0]
    requires zlit.Length == zdist.Length == TABLE_SIZE && zlit != zdist
    modifies r, zlit, zdist, out
    ensures pout0 <= pout <= out.Length
    ensures ok ==> r.Valid() && r.Aligned() && r.pin >= s + 2
    ensures Undecodable(r.mem, s, r.pinend, bs) ==> !ok
    ensures StreamAt(r.mem, s, bs) ==>
      && Outcome(ok, r, StreamEnd(r.mem, s, bs), ExpandBlocks(before, bs),
                 StreamSufficient(r.mem, r.address, r.pinend, s, before, bs, out.Length), out[..pout], out.Length)
      && (ok ==> r.pin == StreamStop(r.mem, r.address, s, bs))
  {
    hide BlocksAt, AllReadable, Lost, BlocksEnd, ExpandBlocks, Sufficient, Number, WordLimit, HeaderOk, StopAt, LastOf;
    pout := pout0;
    ok := ReadZlibHeader(r);
    if ok {
      ok, pout := InflateBlocks(r, zlit, zdist, out, pout0, bs, r.Stream(), r.Pos(), r.Limit(), before);
    }
  }

  // ----- all streams -----

  /** The streams stand where the decoder looks for them: the first at byte s, each further one at the
      word boundary up to which the input has been read when the one before ends. */
  ghost predicate Walked(mem: seq<byte>, address: nat, size: nat, s: nat, streams: seq<seq<Block>>)
    decreases |streams|
  {
    streams == []
    || (s + 4 < size <= |mem| && StreamAt(mem, s, streams[0])
        && Walked(mem, address, size, StreamStop(mem, address, s, streams[0]), streams[1..]))
  }

  /** Where the decoder looks next. */
  function WalkEnd(mem: seq<byte>, address: nat, s: nat, streams: seq<seq<Block>>): nat
    decreases |streams|
  {
    if streams == [] then s else WalkEnd(mem, address, StreamStop(mem, address, s, streams[0]), streams[1..])
  }

  /** The output of the streams.  A match may reach back into the output of earlier ones. */
  function ExpandStreams(out: seq<byte>, streams: seq<seq<Block>>): Option<seq<byte>>
    decreases |streams|
  {
    if streams == [] then Some(out)
    else match ExpandBlocks(out, streams[0])
      case None => None
      case Some(out') => ExpandStreams(out', streams[1..])
  }

  ghost predicate AllSufficient(mem: seq<byte>, address: nat, insize: nat, s: nat, out: seq<byte>,
                                streams: seq<seq<Block>>, size: nat)
    decreases |streams|
  {
    streams == []
    || (&& StreamSufficient(mem, address, insize, s, out, streams[0], size)
        && match ExpandBlocks(out, streams[0])
           case None => true
           case Some(out') =>
             AllSufficient(mem, address, insize, StreamStop(mem, address, s, streams[0]), out', streams[1..], size))
  }

  lemma {:induction false} ExpandStreamsGrows(out: seq<byte>, streams: seq<seq<Block>>)
    requires ExpandStreams(out, streams).Some?
    ensures |ExpandStreams(out, streams).value| >= |out|
    decreases |streams|
  {
    if streams != [] {
      ExpandBlocksGrows(out, streams[0]);
      ExpandStreamsGrows(ExpandBlocks(out, streams[0]).value, streams[1..]);
    }
  }

  /** The streams still to come; they lead to the same end and output as all of them. */
  ghost predicate Walking(mem: seq<byte>, address: nat, insize: nat, s: nat, out: seq<byte>, streams: seq<seq<Block>>,
                          size: nat, end: nat, total: Option<seq<byte>>, all: bool) {
    && Walked(mem, address, insize, s, streams) && WalkEnd(mem, address, s, streams) == end
    && ExpandStreams(out, streams) == total && all == AllSufficient(mem, address, insize, s, out, streams, size)
  }

  lemma WalkStart(mem: seq<byte>, address: nat, insize: nat, s: nat, out: seq<byte>, streams: seq<seq<Block>>, size: nat)
    requires Walked(mem, address, insize, s, streams)
    ensures Walking(mem, address, insize, s, out, streams, size, WalkEnd(mem, address, s, streams),
                    ExpandStreams(out, streams), AllSufficient(mem, address, insize, s, out, streams, size))
  {
  }

  lemma WalkFails(mem: seq<byte>, address: nat, insize: nat, s: nat, out: seq<byte>, streams: seq<seq<Block>>,
                  size: nat, end: nat, total: Option<seq<byte>>, all: bool)
    requires Walking(mem, address, insize, s, out, streams, size, end, total, all) && streams != []
    requires !StreamSufficient(mem, address, insize, s, out, streams[0], size) || NoRoom(ExpandBlocks(out, streams[0]), size)
    ensures !all || NoRoom(total, size)
  {
    if total.Some? {
      ExpandStreamsGrows(ExpandBlocks(out, streams[0]).value, streams[1..]);
    }
  }

  lemma WalkOn(mem: seq<byte>, address: nat, insize: nat, s: nat, out: seq<byte>, streams: seq<seq<Block>>,
               size: nat, end: nat, total: Option<seq<byte>>, all: bool, out': seq<byte>)
    requires Walking(mem, address, insize, s, out, streams, size, end, total, all) && streams != []
    requires StreamSufficient(mem, address, insize, s, out, streams[0], size)
    requires ExpandBlocks(out, streams[0]) == Some(out')
    ensures Walking(mem, address, insize, StreamStop(mem, address, s, streams[0]), out', streams[1..], size, end, total, all)
  {
  }

  lemma WalkDone(mem: seq<byte>, address: nat, insize: nat, s: nat, out: seq<byte>, streams: seq<seq<Block>>,
                 size: nat, end: nat, total: Option<seq<byte>>, all: bool)
    requires Walking(mem, address, insize, s, out, streams, size, end, total, all)
    ensures streams != [] ==> s + 4 < insize && StreamAt(mem, s, streams[0])
    ensures streams == [] ==> s == end && total == Some(out) && all
  {
  }

  /** elf_zlib_inflate.  If the decoder finds the streams one after the other and then no more than four
      bytes, it succeeds exactly when their expansion has the size of the output buffer, the input is
      long enough for all refills, the secondary tables have room and no difference is cut; and then
      the buffer holds the expansion.  If it finds something it cannot decode, it fails. */
  method ZlibInflate(mem: seq<byte>, address: nat, size: nat, zlit: array<nat>, zdist: array<nat>, out: array<byte>,
                     ghost streams: seq<seq<Block>>, ghost next: seq<Block>) returns (ok: bool)
    requires size + 3 <= |mem| && zlit.Length == zdist.Length == TABLE_SIZE && zlit != zdist
    modifies zlit, zdist, out
    ensures Walked(mem, address, size, 0, streams) ==>
      var end, total := WalkEnd(mem, address, 0, streams), ExpandStreams([], streams);
      if end + 4 < size then Undecodable(mem, end, size, next) ==> !ok
      else
        && (ok <==> AllSufficient(mem, address, size, 0, [], streams, out.Length)
                    && total.Some? && |total.value| == out.Length)
        && (ok ==> total == Some(out[..]))
  {
    hide StreamAt, Walked, WalkEnd, ExpandStreams, AllSufficient, Walking, ExpandBlocks, StreamSufficient, StreamEnd,
      StreamStop, Undecodable;
    var r := new Reservoir(mem, address, size);
    ghost var rest, sofar, s := streams, [], 0;
    ghost var end, total := WalkEnd(mem, address, 0, streams), ExpandStreams([], streams);
    ghost var all := AllSufficient(mem, address, size, 0, [], streams, out.Length);
    ghost var carried := Walked(mem, address, size, 0, streams) && (end + 4 < size ==> Undecodable(mem, end, size, next));
    if carried {
      WalkStart(mem, address, size, 0, [], streams, out.Length);
    }
    var pout := 0;
    while r.pinend - r.pin > 4
      invariant r.Valid() && pout <= out.Length && r.mem == mem && r.address == address && r.pinend == size && fresh(r)
      invariant sofar == out[..pout] && s == r.pin
      invariant carried ==> Walking(mem, address, size, s, sofar, rest, out.Length, end, total, all)
      decreases r.pinend - r.pin
    {
      if carried {
        WalkDone(mem, address, size, s, sofar, rest, out.Length, end, total, all);
      }
      ok, pout := InflateStream(r, zlit, zdist, out, pout, if rest == [] then next else rest[0], s, sofar);
      if carried && rest != [] {
        if !ok {
          WalkFails(mem, address, size, s, sofar, rest, out.Length, end, total, all);
        } else {
          WalkOn(mem, address, size, s, sofar, rest, out.Length, end, total, all, out[..pout]);
        }
      }
      if !ok {
        return;
      }
      rest, sofar, s := if rest == [] then [] else rest[1..], out[..pout], r.pin;
    }
    if carried {
      WalkDone(mem, address, size, s, sofar, rest, out.Length, end, total, all);
    }
    assert pout == out.Length ==> out[..pout] == out[..];
    ok := pout == out.Length;
  }

  /** elf_zlib_inflate_and_verify: the last four bytes of the input must be the checksum of the whole
      output. */
  method InflateAndVerify(mem: seq<byte>, address: nat, size: nat, zlit: array<nat>, zdist: array<nat>, out: array<byte>,
                          ghost streams: seq<seq<Block>>, ghost next: seq<Block>) returns (ok: bool)
    requires 4 <= size && size + 3 <= |mem| && zlit.Length == zdist.Length == TABLE_SIZE && zlit != zdist
    modifies zlit, zdist, out
    ensures Walked(mem, address, size, 0, streams) ==>
      var end, total := WalkEnd(mem, address, 0, streams), ExpandStreams([], streams);
      if end + 4 < size then Undecodable(mem, end, size, next) ==> !ok
      else
        && (ok <==> AllSufficient(mem, address, size, 0, [], streams, out.Length)
                    && total.Some? && |total.value| == out.Length
                    && BigEndian(mem[size - 4..size], 4) == Checksum(total.value))
        && (ok ==> total == Some(out[..]))
  {
    hide Walked, WalkEnd, ExpandStreams, AllSufficient, Undecodable, BigEndian, Checksum;
    ok := ZlibInflate(mem, address, size, zlit, zdist, out, streams, next);
    if ok {
      ok := VerifyChecksum(mem[size - 4..size], out[..]);
    }
  }

  // ----- streams that follow one another -----

  /** The byte behind the checksum of a stream whose blocks end at bit `end`. */
  function Behind(end: nat): nat {
    (end + 7) / 8 + 4
  }

  /** The input from byte s on is a sequence of streams, each right behind the checksum of the one
      before, and nothing else. */
  ghost predicate Concatenated(mem: seq<byte>, size: nat, s: nat, streams: seq<seq<Block>>)
    decreases |streams|
  {
    && streams != [] && size <= |mem| && StreamAt(mem, s, streams[0])
    && var next := Behind(StreamEnd(mem, s, streams[0]));
    && if |streams| == 1 then size == next else Concatenated(mem, size, next, streams[1..])
  }

  /** A stream whose blocks end at bit `end` with block b ends so that the decoder finds what is right
      behind its checksum: that is a word boundary, and the last code and the padding behind it have
      together at most 14 bits. */
  predicate Followed(address: nat, end: nat, b: Block) {
    !b.Stored? && (address + Behind(end)) % 4 == 0 && EndCode(b) + 8 * ((end + 7) / 8) - end <= 14
  }

  lemma NextFound(address: nat, end: nat, b: Block)
    requires EndCode(b) <= end && EndCode(b) <= 15 && (b.Stored? ==> end % 8 == 0)
    ensures StopAt(address, end, b) == Behind(end) <==> Followed(address, end, b)
    ensures 8 * StopAt(address, end, b) >= end && (address + StopAt(address, end, b)) % 4 == 0
  {
    hide EndCode;
    NextWordBounds(address, if b.Stored? then end / 8 else (end - EndCode(b) + 22) / 8);
    if Followed(address, end, b) {
      StopUnique(address, end, b, Behind(end));
    }
  }

  lemma NextWordBounds(address: nat, e: nat)
    ensures e <= NextWord(address, e) < e + 4 && (address + NextWord(address, e)) % 4 == 0
  {
  }

  /** Where the blocks of a stream end. */
  lemma {:induction false} StreamLast(m: nat, pos: nat, bs: seq<Block>)
    requires BlocksAt(m, pos, bs)
    ensures pos + EndCode(LastOf(bs)) <= BlocksEnd(m, pos, bs) && EndCode(LastOf(bs)) <= 15
    ensures LastOf(bs).Stored? ==> BlocksEnd(m, pos, bs) % 8 == 0
    decreases bs
  {
    hide ContentsAt, ContentsEnd, EndCode;
    BlockWithin(m, pos, bs);
    BlockLast(m, pos + 3, At(m, pos + 1, 2), bs[0]);
    EndCodeBound(m, pos + 3, At(m, pos + 1, 2), bs[0]);
    if |bs| > 1 {
      StreamLast(m, BlockEnd(m, pos, bs[0]), bs[1..]);
    }
  }

  lemma StreamFollowed(mem: seq<byte>, address: nat, s: nat, bs: seq<Block>)
    requires StreamAt(mem, s, bs)
    ensures var end := StreamEnd(mem, s, bs);
      && (StreamStop(mem, address, s, bs) == Behind(end) <==> Followed(address, end, LastOf(bs)))
      && 8 * (s + 2) <= end <= 8 * StreamStop(mem, address, s, bs)
  {
    hide BlocksAt, BlocksEnd, StopAt, EndCode, LastOf, Followed;
    StreamLast(Number(mem, 0), 8 * (s + 2), bs);
    NextFound(address, StreamEnd(mem, s, bs), LastOf(bs));
  }

  /** Every stream but the last is followed in this way. */
  ghost predicate AllFollowed(mem: seq<byte>, address: nat, s: nat, streams: seq<seq<Block>>)
    decreases |streams|
  {
    |streams| <= 1
    || (var end := StreamEnd(mem, s, streams[0]);
        Followed(address, end, LastOf(streams[0])) && AllFollowed(mem, address, Behind(end), streams[1..]))
  }

  lemma {:induction false} ConcatenatedSize(mem: seq<byte>, address: nat, size: nat, s: nat, streams: seq<seq<Block>>)
    requires Concatenated(mem, size, s, streams)
    ensures s + 6 <= size
    decreases |streams|
  {
    StreamFollowed(mem, address, s, streams[0]);
    if |streams| > 1 {
      ConcatenatedSize(mem, address, size, Behind(StreamEnd(mem, s, streams[0])), streams[1..]);
    }
  }

  /** Then the decoder finds them all. */
  lemma {:induction false} AllFound(mem: seq<byte>, address: nat, size: nat, s: nat, streams: seq<seq<Block>>)
    requires Concatenated(mem, size, s, streams) && AllFollowed(mem, address, s, streams)
    ensures Walked(mem, address, size, s, streams) && WalkEnd(mem, address, s, streams) + 4 >= size
    decreases |streams|
  {
    hide StreamAt, StreamEnd, StreamStop, Followed;
    ConcatenatedSize(mem, address, size, s, streams);
    StreamFollowed(mem, address, s, streams[0]);
    if |streams| > 1 {
      AllFound(mem, address, size, Behind(StreamEnd(mem, s, streams[0])), streams[1..]);
    } else {
      assert streams[1..] == [];
    }
  }

  /** Where stream k begins. */
  function StartOf(mem: seq<byte>, s: nat, streams: seq<seq<Block>>, k: nat): nat
    requires k <= |streams|
    decreases k
  {
    if k == 0 then s else StartOf(mem, Behind(StreamEnd(mem, s, streams[0])), streams[1..], k - 1)
  }

  /** Otherwise it finds them up to some stream k, and looks for that one in the wrong place. */
  lemma {:induction false} FirstLost(mem: seq<byte>, address: nat, size: nat, s: nat, streams: seq<seq<Block>>) returns (k: nat)
    requires Concatenated(mem, size, s, streams) && !AllFollowed(mem, address, s, streams)
    ensures 0 < k < |streams| && Walked(mem, address, size, s, streams[..k])
    ensures WalkEnd(mem, address, s, streams[..k]) != StartOf(mem, s, streams, k)
    decreases |streams|
  {
    hide StreamAt, StreamEnd, StreamStop, Followed;
    ConcatenatedSize(mem, address, size, s, streams);
    StreamFollowed(mem, address, s, streams[0]);
    var end := StreamEnd(mem, s, streams[0]);
    if Followed(address, end, LastOf(streams[0])) {
      var j := FirstLost(mem, address, size, Behind(end), streams[1..]);
      k := j + 1;
      assert streams[..k][0] == streams[0] && streams[..k][1..] == streams[1..][..j];
    } else {
      k := 1;
      assert streams[..1][0] == streams[0] && streams[..1][1..] == [];
    }
  }

  // ----- the output of several streams -----

  lemma {:induction false} RepeatApart(a: seq<byte>, s: seq<byte>, dist: nat, len: nat)
    requires 0 < dist <= |s|
    ensures Repeat(a + s, dist, len) == a + Repeat(s, dist, len)
    decreases len
  {
    if len > 0 {
      var c := s[|s| - dist];
      assert (a + s)[|a + s| - dist] == c && (a + s) + [c] == a + (s + [c]);
      RepeatApart(a, s + [c], dist, len - 1);
    }
  }

  lemma TokenApart(a: seq<byte>, s: seq<byte>, t: Token)
    requires ExpandToken(s, t).Some?
    ensures ExpandToken(a + s, t) == Some(a + ExpandToken(s, t).value)
  {
    hide Repeat;
    if t.Match? {
      RepeatApart(a, s, DistOf(t.dsym, t.dextra), LengthOf(t.lsym, t.lextra));
    } else {
      assert (a + s) + [t.b] == a + (s + [t.b]);
    }
  }

  lemma {:induction false} TokensApart(a: seq<byte>, s: seq<byte>, ts: seq<Token>)
    requires Expand(s, ts).Some?
    ensures Expand(a + s, ts) == Some(a + Expand(s, ts).value)
    decreases ts
  {
    hide ExpandToken;
    if ts != [] {
      TokenApart(a, s, ts[0]);
      TokensApart(a, ExpandToken(s, ts[0]).value, ts[1..]);
    }
  }

  lemma {:induction false} BlocksApart(a: seq<byte>, s: seq<byte>, bs: seq<Block>)
    requires ExpandBlocks(s, bs).Some?
    ensures ExpandBlocks(a + s, bs) == Some(a + ExpandBlocks(s, bs).value)
    decreases bs
  {
    if bs != [] {
      if bs[0].Stored? {
        assert (a + s) + bs[0].data == a + (s + bs[0].data);
      } else {
        TokensApart(a, s, bs[0].tokens);
      }
      BlocksApart(a, ExpandBlock(s, bs[0]).value, bs[1..]);
    }
  }

  /** What each stream gives by itself, one after the other. */
  function Separate(streams: seq<seq<Block>>): Option<seq<byte>>
    decreases |streams|
  {
    if streams == [] then Some([])
    else match ExpandBlocks([], streams[0])
      case None => None
      case Some(x) =>
        match Separate(streams[1..])
        case None => None
        case Some(y) => Some(x + y)
  }

  /** The decoder keeps one output for all streams; for streams that can be decoded by themselves that
      makes no difference. */
  lemma {:induction false} StreamsApart(out: seq<byte>, streams: seq<seq<Block>>)
    requires Separate(streams).Some?
    ensures ExpandStreams(out, streams) == Some(out + Separate(streams).value)
    decreases |streams|
  {
    if streams != [] {
      var x := ExpandBlocks([], streams[0]).value;
      BlocksApart(out, [], streams[0]);
      assert out + [] == out;
      StreamsApart(out + x, streams[1..]);
      assert (out + x) + Separate(streams[1..]).value == out + (x + Separate(streams[1..]).value);
    } else {
      assert out + [] == out;
    }
  }

  // ----- one whole stream -----

  /** A zlib stream as RFC 1950 has it: header, blocks, and the checksum of what they expand to. */
  ghost predicate WholeStream(mem: seq<byte>, size: nat, bs: seq<Block>) {
    && Concatenated(mem, size, 0, [bs]) && 4 <= size && ExpandBlocks([], bs).Some?
    && BigEndian(mem[size - 4..size], 4) == Checksum(ExpandBlocks([], bs).value)
  }

  /** InflateAndVerify decodes it, at any address and in any room, exactly if the buffer has the right
      size, the last refill finds its input and the tables have room.  (With less than 2^32 bytes on
      either side no difference is cut.) */
  lemma WholeStreamAccepted(mem: seq<byte>, address: nat, size: nat, bs: seq<Block>, outsize: nat)
    requires WholeStream(mem, size, bs) && size < 0x1_0000_0000 && outsize < 0x1_0000_0000
    ensures Walked(mem, address, size, 0, [bs]) && WalkEnd(mem, address, 0, [bs]) + 4 >= size
    ensures ExpandStreams([], [bs]) == ExpandBlocks([], bs)
    ensures var last, end, length := LastOf(bs), StreamEnd(mem, 0, bs), |ExpandBlocks([], bs).value|;
      AllSufficient(mem, address, size, 0, [], [bs], outsize) && length == outsize
      <==> && length == outsize && AllTablesFit(bs)
           && (last.Stored? || (address + size) % 4 != 3 || EndCode(last) + 8 * (size - 4) - end >= 7)
  {
    hide BlocksAt, AllReadable, BlocksEnd, ExpandBlocks, AllEnough, AllTablesFit, AllNarrow, Number, WordLimit, EndCode,
      BigEndian, Checksum, HeaderOk, LastOf;
    var streams := [bs];
    assert streams[1..] == [];
    AllFound(mem, address, size, 0, streams);
    ConcatenatedSize(mem, address, size, 0, streams);
    OneRefill(mem, address, size, bs);
    if |ExpandBlocks([], bs).value| == outsize {
      SmallIsNarrow(Number(mem, 0), 16, [], bs, size, outsize);
    }
  }

  lemma OneRefill(mem: seq<byte>, address: nat, size: nat, bs: seq<Block>)
    requires BlocksAt(Number(mem, 0), 16, bs) && size == Behind(BlocksEnd(Number(mem, 0), 16, bs)) && 6 <= size
    ensures var last, pad := LastOf(bs), 8 * (size - 4) - BlocksEnd(Number(mem, 0), 16, bs);
      AllEnough(Number(mem, 0), 16, bs, WordLimit(address, size, 2), address, size)
      <==> last.Stored? || (address + size) % 4 != 3 || EndCode(last) + pad >= 7
  {
    ChecksumRoom(Number(mem, 0), 16, bs, address, size);
    LimitStays(address, size, 2);
  }
}
