/** The two-level decoding table built by elf_zlib_inflate_table: 256 primary entries indexed by
    the next eight bits, followed by secondary tables for codes longer than eight bits. */
module HuffmanTable {
  import opened Bits
  import opened CanonicalCode

  const PRIMARY: nat := 0x100
  const TABLE_SIZE: nat := 1024
  const VALUE_LIMIT: nat := 0x200
  const SECONDARY_FLAG: nat := 0x1000

  // ----- table entries: 9 bits of value or offset, 3 bits of size, 1 flag bit -----

  function Entry(value: nat, bits: nat): nat {
    value + bits * VALUE_LIMIT
  }

  function Value(e: nat): nat {
    e % VALUE_LIMIT
  }

  function SizeBits(e: nat): nat {
    e / VALUE_LIMIT % 8
  }

  predicate IsSecondary(e: nat) {
    e / SECONDARY_FLAG % 2 == 1
  }

  lemma SecondaryIndex(e: nat, x: nat)
    ensures Value(e) + PRIMARY + Low(x, SizeBits(e)) < TABLE_SIZE
    ensures Pow2(SizeBits(e)) <= 128
  {
    LowBound(x, SizeBits(e));
    Pow2Mono(SizeBits(e), 7);
    assert Pow2(7) == 128;
  }

  /** The lookup of the inflate loop: the symbol found and the number of bits it consumes. */
  function Lookup(t: seq<nat>, w: nat): (nat, nat)
    requires |t| == TABLE_SIZE
  {
    var e := t[w % PRIMARY];
    if !IsSecondary(e) then (Value(e), SizeBits(e) + 1)
    else
      SecondaryIndex(e, w / PRIMARY);
      var f := t[Value(e) + PRIMARY + Low(w / PRIMARY, SizeBits(e))];
      (Value(f), SizeBits(f) + 8)
  }

  /** Decoding through the table is exact: every window that starts with the code of v gives v. */
  ghost predicate Represents(t: seq<nat>, lens: seq<nat>) {
    && |t| == TABLE_SIZE
    && forall v: nat, w: nat {:trigger Lookup(t, w), Matches(lens, v, w)} :: Matches(lens, v, w) ==> Lookup(t, w) == (v, lens[v])
  }

  // ----- counting codes in bit-reversed order -----

  /** Adds one at bit n - 1, carrying towards the less significant end. */
  function RevAddBit(code: nat, n: nat): nat {
    if n == 0 then code
    else if !Bit(code, n - 1) then code + Pow2(n - 1)
    else
      BitSet(code, n - 1);
      RevAddBit(code - Pow2(n - 1), n - 1)
  }

  lemma {:induction false} BitHigh(x: nat, k: nat, n: nat)
    requires k < n
    ensures Bit(Pow2(n) + x, k) == Bit(x, k)
  {
    assert (Pow2(n) + x) / 2 == Pow2(n - 1) + x / 2;
    if k > 0 {
      BitHigh(x / 2, k - 1, n - 1);
    }
  }

  lemma {:induction false} BitTop(x: nat, n: nat)
    requires x < Pow2(n)
    ensures Bit(Pow2(n) + x, n) && !Bit(x, n)
  {
    LowSmall(x, n);
    if n > 0 {
      assert (Pow2(n) + x) / 2 == Pow2(n - 1) + x / 2;
      BitTop(x / 2, n - 1);
    }
  }

  lemma {:induction false} BitSet(x: nat, n: nat)
    requires Bit(x, n)
    ensures x >= Pow2(n)
  {
    if n > 0 {
      BitSet(x / 2, n - 1);
    }
  }

  lemma {:induction false} RevAddBitHigh(x: nat, k: nat, n: nat)
    requires k <= n
    ensures RevAddBit(Pow2(n) + x, k) == Pow2(n) + RevAddBit(x, k)
    decreases k
  {
    if k > 0 {
      BitHigh(x, k - 1, n);
      Pow2Mono(k - 1, n);
      if Bit(x, k - 1) {
        BitSet(x, k - 1);
        RevAddBitHigh(x - Pow2(k - 1), k - 1, n);
      }
    }
  }

  /** Reverse addition at the top of a reversed j-bit number adds one to the number. */
  lemma {:induction false} RevAddOne(x: nat, j: nat)
    ensures RevAddBit(Rev(x, j), j) == Rev(x + 1, j)
    decreases j
  {
    if j > 0 {
      RevBound(x / 2, j - 1);
      BitTop(Rev(x / 2, j - 1), j - 1);
      if x % 2 == 1 {
        RevAddOne(x / 2, j - 1);
        assert (x + 1) / 2 == x / 2 + 1;
      } else {
        assert (x + 1) / 2 == x / 2;
      }
    }
  }

  lemma RevStep(x: nat, j: nat)
    requires j > 0
    ensures Rev(x, j) == (if x % 2 == 1 then Pow2(j - 1) else 0) + Rev(x / 2, j - 1)
  {
  }

  lemma Pow2Step(k: nat)
    ensures Pow2(0) == 1 && Pow2(k + 1) == 2 * Pow2(k)
  {
  }

  /** Reverse addition at bit j - k - 1 of a reversed j-bit number adds 2^k to the number. */
  lemma {:induction false} RevAddBitAdds(x: nat, j: nat, k: nat)
    requires k <= j
    ensures RevAddBit(Rev(x, j), j - k) == Rev(x + Pow2(k), j)
    decreases j
  {
    hide Rev, RevAddBit, Bit, Pow2;
    if k == 0 {
      Pow2Step(0);
      RevAddOne(x, j);
    } else {
      RevAddBitAdds(x / 2, j - 1, k - 1);
      Pow2Step(k - 1);
      EvenSum(x, Pow2(k - 1));
      RevStep(x, j);
      RevStep(x + Pow2(k), j);
      if x % 2 == 1 {
        RevAddBitHigh(Rev(x / 2, j - 1), j - k, j - 1);
      }
    }
  }

  lemma EvenSum(x: nat, p: nat)
    ensures (x + 2 * p) / 2 == x / 2 + p && (x + 2 * p) % 2 == x % 2
  {
  }

  /** Advances a reversed j-bit code to the next one: sets the most significant clear bit and
      clears the bits above it.  `incr` is 1 << (k - 1), or 0 when k is 0. */
  method NextCode(code: nat, j: nat) returns (r: nat)
    requires 0 < j && code < Pow2(j)
    ensures r == RevAddBit(code, j)
  {
    var k := j;
    ghost var low := code;
    LowSmall(code, j);
    while k > 0 && Bit(code, k - 1)
      invariant k <= j
      invariant low == Low(code, k)
      invariant RevAddBit(low, k) == RevAddBit(code, j)
    {
      LowTop(code, k - 1);
      low := low - Pow2(k - 1);
      k := k - 1;
    }
    if k == 0 {
      r := 0;
    } else {
      LowTop(code, k - 1);
      r := Low(code, k - 1) + Pow2(k - 1);
    }
  }
}
