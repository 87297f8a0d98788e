/** Shifts, masks and powers of two on unbounded natural numbers.

    The C code works on machine words; the model writes `x >> n` as Shr(x, n), `x << n` as
    Shl(x, n), `x & ((1 << n) - 1)` as Low(x, n), and an `|` of disjoint bit ranges as `+`, which
    OrDisjoint allows.
    The functions recurse on the bit count, which keeps the proofs in linear arithmetic;
    ShiftMeaning relates them to division and remainder. */
module Bits {

  type byte = x: nat | x < 256

  function Pow2(n: nat): (p: nat)
    ensures p > 0
  {
    if n == 0 then 1 else 2 * Pow2(n - 1)
  }

  function Shl(x: nat, n: nat): nat {
    if n == 0 then x else 2 * Shl(x, n - 1)
  }

  function Shr(x: nat, n: nat): nat {
    if n == 0 then x else Shr(x / 2, n - 1)
  }

  function Low(x: nat, n: nat): nat {
    if n == 0 then 0 else x % 2 + 2 * Low(x / 2, n - 1)
  }

  /** x | y, for any bits. */
  function Or(x: nat, y: nat): nat {
    if x == 0 then y else if y == 0 then x
    else (if x % 2 == 1 || y % 2 == 1 then 1 else 0) + 2 * Or(x / 2, y / 2)
  }

  /** Bit k of x. */
  predicate Bit(x: nat, k: nat) {
    Shr(x, k) % 2 == 1
  }

  /** A cast to a 32-bit unsigned integer. */
  function U32(x: nat): (r: nat)
    ensures r <= x && (x < 0x1_0000_0000 ==> r == x)
  {
    x % 0x1_0000_0000
  }

  // ----- powers of two -----

  lemma {:induction false} Pow2Mono(a: nat, b: nat)
    requires a <= b
    ensures Pow2(a) <= Pow2(b)
    decreases b
  {
    if a < b {
      Pow2Mono(a, b - 1);
    }
  }

  lemma {:induction false} ShlPow2(a: nat, n: nat)
    ensures Shl(Pow2(a), n) == Pow2(a + n)
  {
    if n > 0 {
      ShlPow2(a, n - 1);
    }
  }

  // ----- left shift -----

  lemma {:induction false} ShlAdd(x: nat, y: nat, n: nat)
    ensures Shl(x + y, n) == Shl(x, n) + Shl(y, n)
  {
    if n > 0 {
      ShlAdd(x, y, n - 1);
    }
  }

  lemma {:induction false} ShlMono(x: nat, y: nat, n: nat)
    requires x <= y
    ensures Shl(x, n) <= Shl(y, n)
  {
    if n > 0 {
      ShlMono(x, y, n - 1);
    }
  }

  lemma {:induction false} ShlShl(x: nat, a: nat, b: nat)
    ensures Shl(Shl(x, a), b) == Shl(x, a + b)
    decreases b
  {
    if b > 0 {
      ShlShl(x, a, b - 1);
    }
  }

  // ----- low bits -----

  lemma {:induction false} LowBound(x: nat, n: nat)
    ensures Low(x, n) < Pow2(n)
    ensures Low(x, n) <= x
  {
    if n > 0 {
      LowBound(x / 2, n - 1);
    }
  }

  lemma {:induction false} LowSmall(x: nat, n: nat)
    requires x < Pow2(n)
    ensures Low(x, n) == x && Shr(x, n) == 0
  {
    if n > 0 {
      LowSmall(x / 2, n - 1);
    }
  }

  /** Masking twice keeps the smaller mask. */
  lemma {:induction false} LowLow(x: nat, i: nat, j: nat)
    requires i <= j
    ensures Low(Low(x, j), i) == Low(x, i)
  {
    if i > 0 {
      LowLow(x / 2, i - 1, j - 1);
    }
  }

  // ----- right shift -----

  lemma {:induction false} ShrShr(x: nat, a: nat, b: nat)
    ensures Shr(Shr(x, a), b) == Shr(x, a + b)
    decreases a
  {
    if a > 0 {
      ShrShr(x / 2, a - 1, b);
    }
  }

  lemma {:induction false} ShrMono(x: nat, y: nat, n: nat)
    requires x <= y
    ensures Shr(x, n) <= Shr(y, n)
  {
    if n > 0 {
      ShrMono(x / 2, y / 2, n - 1);
    }
  }

  lemma {:induction false} ShrShl(x: nat, n: nat)
    ensures Shr(Shl(x, n), n) == x
  {
    if n > 0 {
      ShrShl(x, n - 1);
    }
  }

  lemma {:induction false} ShrBound(x: nat, a: nat, b: nat)
    requires x < Pow2(a + b)
    ensures Shr(x, a) < Pow2(b)
    decreases a
  {
    if a > 0 {
      ShrBound(x / 2, a - 1, b);
    }
  }

  // ----- splitting a number at bit a -----

  lemma {:induction false} Split(x: nat, n: nat)
    ensures x == Low(x, n) + Shl(Shr(x, n), n)
  {
    if n > 0 {
      Split(x / 2, n - 1);
    }
  }

  /** The digits of a number given in two parts. */
  lemma {:induction false} Join(lo: nat, hi: nat, n: nat)
    requires lo < Pow2(n)
    ensures Low(lo + Shl(hi, n), n) == lo
    ensures Shr(lo + Shl(hi, n), n) == hi
  {
    if n > 0 {
      Join(lo / 2, hi, n - 1);
      assert (lo + Shl(hi, n)) / 2 == lo / 2 + Shl(hi, n - 1);
    }
  }

  /** Bits a..a+b can be masked before or after shifting. */
  lemma {:induction false} ShrLow(x: nat, a: nat, b: nat)
    ensures Shr(Low(x, a + b), a) == Low(Shr(x, a), b)
    decreases a
  {
    if a > 0 {
      ShrLow(x / 2, a - 1, b);
    }
  }

  lemma {:induction false} LowSplit(x: nat, a: nat, b: nat)
    ensures Low(x, a + b) == Low(x, a) + Shl(Low(Shr(x, a), b), a)
    decreases a
  {
    if a > 0 {
      LowSplit(x / 2, a - 1, b);
    }
  }

  /** The low n + 1 bits are bit n and the low n bits. */
  lemma {:induction false} LowTop(x: nat, n: nat)
    ensures Low(x, n + 1) == Low(x, n) + (if Bit(x, n) then Pow2(n) else 0)
    ensures Bit(Low(x, n + 1), n) == Bit(x, n)
  {
    if n > 0 {
      LowTop(x / 2, n - 1);
    }
  }

  lemma {:induction false} OrDisjoint(x: nat, y: nat, n: nat)
    requires x < Pow2(n) && Low(y, n) == 0
    ensures Or(x, y) == x + y
  {
    if n > 0 {
      OrDisjoint(x / 2, y / 2, n - 1);
    }
  }

  // ----- relation to division -----

  lemma MulMono(a: int, x: int, y: int)
    requires 0 <= a && x <= y
    ensures a * x <= a * y
  {
  }

  lemma DivModUnique(x: int, d: int, q: int, r: int)
    requires d > 0 && x == d * q + r && 0 <= r < d
    ensures x / d == q && x % d == r
  {
    var q', r' := x / d, x % d;
    assert d * (q - q') == r' - r;
    if q < q' {
      MulMono(d, q - q', -1);
    } else if q > q' {
      MulMono(d, 1, q - q');
    }
  }

  lemma {:induction false} ShlIsTimes(x: nat, n: nat)
    ensures Shl(x, n) == Pow2(n) * x
  {
    if n > 0 {
      ShlIsTimes(x, n - 1);
      assert 2 * (Pow2(n - 1) * x) == (2 * Pow2(n - 1)) * x;
    }
  }

  lemma ShiftMeaning(x: nat, n: nat)
    ensures Shl(x, n) == Pow2(n) * x && Shr(x, n) == x / Pow2(n) && Low(x, n) == x % Pow2(n)
  {
    var d, q, r := Pow2(n), Shr(x, n), Low(x, n);
    assert x == d * q + r by {
      ShlIsTimes(q, n);
      Split(x, n);
    }
    LowBound(x, n);
    DivModUnique(x, d, q, r);
    ShlIsTimes(x, n);
  }

  lemma Pow2Words()
    ensures Pow2(8) == 256 && Pow2(16) == 0x1_0000 && Pow2(24) == 0x100_0000 && Pow2(32) == 0x1_0000_0000
  {
    assert Pow2(8) == 256;
    ShlPow2(8, 8);
    ShlIsTimes(256, 8);
    ShlPow2(16, 8);
    ShlIsTimes(0x1_0000, 8);
    ShlPow2(24, 8);
    ShlIsTimes(0x100_0000, 8);
  }
}
