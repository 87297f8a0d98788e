/** The bit reservoir of the inflate loop.  The input is one large number whose bit i is bit i % 8
    of byte i / 8; the reservoir holds the next `bits` of it. */
module BitReader {
  import opened Bits
  import opened CanonicalCode
  import opened HuffmanTable

  /** The bytes from index i on, read as one little-endian number. */
  function Number(mem: seq<byte>, i: nat): nat
    decreases |mem| - i
  {
    if i >= |mem| then 0 else mem[i] + 256 * Number(mem, i + 1)
  }

  function Octet(mem: seq<byte>, i: nat): nat
    requires i < |mem|
  {
    mem[i]
  }

  function Half(mem: seq<byte>, i: nat): nat
    requires i + 1 < |mem|
  {
    Octet(mem, i) + 256 * Octet(mem, i + 1)
  }

  /** Four bytes as a little-endian 32-bit word. */
  function Word(mem: seq<byte>, i: nat): nat
    requires i + 3 < |mem|
  {
    Half(mem, i) + 0x1_0000 * Half(mem, i + 2)
  }

  /** The n bits of stream m at bit position pos. */
  function At(m: nat, pos: nat, n: nat): nat {
    Low(Shr(m, pos), n)
  }

  lemma ByteTimes(x: nat)
    ensures Shl(x, 8) == 256 * x
  {
    ShlIsTimes(x, 8);
    assert Pow2(8) == 256;
  }

  lemma {:induction false} SkipBytes(mem: seq<byte>, i: nat)
    requires i <= |mem|
    ensures Shr(Number(mem, 0), 8 * i) == Number(mem, i)
  {
    if i > 0 {
      SkipBytes(mem, i - 1);
      ShrShr(Number(mem, 0), 8 * (i - 1), 8);
      ByteTimes(Number(mem, i));
      assert Pow2(8) == 256;
      Join(mem[i - 1], Number(mem, i), 8);
    }
  }

  /** A byte of the input is eight bits of the stream. */
  lemma ByteAt(mem: seq<byte>, i: nat)
    requires i < |mem|
    ensures At(Number(mem, 0), 8 * i, 8) == mem[i]
  {
    SkipBytes(mem, i);
    ByteTimes(Number(mem, i + 1));
    assert Pow2(8) == 256;
    Join(mem[i], Number(mem, i + 1), 8);
  }

  /** A read of a + b bits is a read of a bits followed by a read of b bits. */
  lemma AtSplit(m: nat, pos: nat, a: nat, b: nat)
    ensures At(m, pos, a + b) == At(m, pos, a) + Shl(At(m, pos + a, b), a)
  {
    ShrShr(m, pos, a);
    LowSplit(Shr(m, pos), a, b);
  }

  lemma TwoBytesAt(mem: seq<byte>, i: nat)
    requires i + 1 < |mem|
    ensures At(Number(mem, 0), 8 * i, 16) == Half(mem, i)
  {
    ByteAt(mem, i);
    ByteAt(mem, i + 1);
    AtSplit(Number(mem, 0), 8 * i, 8, 8);
    ByteTimes(mem[i + 1]);
  }

  lemma FourBytesAt(mem: seq<byte>, i: nat)
    requires i + 3 < |mem|
    ensures At(Number(mem, 0), 8 * i, 32) == Word(mem, i)
  {
    TwoBytesAt(mem, i);
    TwoBytesAt(mem, i + 2);
    AtSplit(Number(mem, 0), 8 * i, 16, 16);
    ShlIsTimes(Half(mem, i + 2), 16);
    Pow2Words();
  }

  /** The last byte index that is a word boundary. */
  function LastWord(address: nat, size: nat): int {
    size - (address + size) % 4
  }

  /** The first word boundary at or behind byte e. */
  function NextWord(address: nat, e: nat): nat {
    e + (4 - (address + e) % 4) % 4
  }

  /** Up to which bit refills get, if PIN was last aligned at byte e: to the last word boundary of the
      input, or to the next one if that is behind it. */
  function WordLimit(address: nat, size: nat, e: nat): int {
    if e <= LastWord(address, size) then 8 * LastWord(address, size) else 8 * NextWord(address, e)
  }

  lemma Boundary(address: nat, size: nat)
    ensures (address + LastWord(address, size)) % 4 == 0
    ensures size - 3 <= LastWord(address, size) <= size
  {
  }

  lemma SameWord(address: nat, p: int, q: int)
    requires (address + p) % 4 == 0 && (address + q) % 4 == 0 && p <= q
    ensures p == q || p + 4 <= q
  {
  }

  /** A whole word that starts at a boundary ends at or before the last one. */
  lemma WordFits(address: nat, size: nat, p: nat)
    requires (address + p) % 4 == 0 && p + 4 <= size
    ensures p + 4 <= LastWord(address, size)
  {
    Boundary(address, size);
    SameWord(address, p, LastWord(address, size));
  }

  lemma WordUnique(address: nat, e: nat, p: nat)
    requires e <= p < e + 4 && (address + p) % 4 == 0
    ensures p == NextWord(address, e)
  {
  }

  /** The first boundary at or behind e. */
  lemma NextBoundary(address: nat, size: nat, e: nat, p: nat)
    requires e <= p < e + 4 && (address + p) % 4 == 0
    ensures (8 * if p <= LastWord(address, size) then LastWord(address, size) else p) == WordLimit(address, size, e)
  {
    Boundary(address, size);
    WordUnique(address, e, p);
    if e <= LastWord(address, size) < p {
      SameWord(address, LastWord(address, size), p);
    }
  }

  /** The variables PIN, VAL and BITS of the decoder.  `mem` is the memory that holds the
      compressed data, `address` the address of its first byte, and `pinend` the end of the data.
      Aligning PIN may read up to three bytes past it. */
  class Reservoir {
    const mem: seq<byte>
    const address: nat
    const pinend: nat
    var pin: nat
    var val: nat
    var bits: nat

    /** Bit position of the first unread bit. */
    ghost function Pos(): int
      reads this
    {
      8 * pin - bits
    }

    ghost function Stream(): nat {
      Number(mem, 0)
    }

    /** The reservoir holds exactly the unread bits below PIN, in a 64-bit word with room for a
        32-bit refill. */
    ghost predicate Valid()
      reads this
    {
      && pinend + 3 <= |mem| && pin <= pinend + 3
      && 0 <= Pos() && bits <= 46
      && val == At(Stream(), Pos(), bits)
    }

    predicate Aligned()
      reads this
    {
      (address + pin) % 4 == 0
    }

    constructor (mem: seq<byte>, address: nat, size: nat)
      requires size + 3 <= |mem|
      ensures Valid() && this.mem == mem && this.address == address && pinend == size
      ensures pin == 0 && bits == 0
    {
      this.mem, this.address, pinend := mem, address, size;
      pin, val, bits := 0, 0, 0;
    }

    lemma Bounds()
      requires Valid()
      ensures val < Pow2(bits) <= Pow2(46)
    {
      LowBound(Shr(Stream(), Pos()), bits);
      Pow2Mono(bits, 46);
    }

    /** Fewer than 15 bits are held and fewer than four bytes are left. */
    ghost predicate Starved()
      reads this
    {
      bits < 15 && pin + 4 > pinend
    }

    /** Up to which bit the reservoir will ever be filled. */
    ghost function Limit(): int
      reads this
    {
      8 * if pin <= LastWord(address, pinend) then LastWord(address, pinend) else pin
    }

    /** Whether a refill finds enough input depends only on the position of the reader. */
    lemma StarvedExactly()
      requires Valid() && Aligned()
      ensures Starved() <==> Pos() + 15 > Limit()
    {
      Boundary(address, pinend);
      if pin <= LastWord(address, pinend) {
        SameWord(address, pin, LastWord(address, pinend));
      } else {
        SameWord(address, LastWord(address, pinend), pin);
      }
    }

    /** elf_zlib_fetch: makes at least 15 bits available. */
    method Fetch() returns (ok: bool)
      requires Valid() && Aligned()
      modifies this
      ensures Valid() && Aligned() && Pos() == old(Pos())
      ensures Limit() == old(Limit())
      ensures ok <==> Pos() + 15 <= Limit()
      ensures ok ==> bits >= 15
      ensures !ok ==> Starved()
    {
      StarvedExactly();
      if bits >= 15 {
        return true;
      }
      if pin + 4 > pinend {
        return false;
      }
      Boundary(address, pinend);
      WordFits(address, pinend, pin);
      var next := Word(mem, pin);
      FourBytesAt(mem, pin);
      AtSplit(Stream(), Pos(), bits, 32);
      val := val + Shl(next, bits);
      bits := bits + 32;
      pin := pin + 4;
      return true;
    }

    /** Reads a field of n bits. */
    method Take(n: nat) returns (r: nat)
      requires Valid() && n <= bits
      modifies `val, `bits
      ensures Valid() && Pos() == old(Pos()) + n && bits == old(bits) - n && Limit() == old(Limit())
      ensures r == At(Stream(), old(Pos()), n)
    {
      var w := Shr(Stream(), Pos());
      LowLow(w, n, bits);
      ShrShr(Stream(), Pos(), n);
      ShrLow(w, n, bits - n);
      r := Low(val, n);
      val := Shr(val, n);
      bits := bits - n;
    }

    /** Aligns PIN to a 32-bit boundary, moving the skipped bytes into the empty reservoir. */
    method Align()
      requires Valid() && bits == 0 && pin <= pinend
      modifies this
      ensures Valid() && Aligned() && Pos() == old(Pos()) && bits <= 24
      ensures Limit() == WordLimit(address, pinend, old(pin)) && pin == NextWord(address, old(pin))
    {
      hide Shl;
      val := 0;
      ghost var gap := 4 - (address + pin) % 4;
      while !Aligned()
        invariant pin <= pinend + 3 && bits == 8 * (pin - old(pin))
        invariant pin - old(pin) <= gap % 4
        invariant val == At(Stream(), Pos(), bits) && Pos() == 8 * old(pin)
        decreases 3 - (pin - old(pin))
      {
        ByteAt(mem, pin);
        AtSplit(Stream(), Pos(), bits, 8);
        val := val + Shl(mem[pin], bits);
        bits := bits + 8;
        pin := pin + 1;
      }
      WordUnique(address, old(pin), pin);
      NextBoundary(address, pinend, old(pin), pin);
    }
  }
}
