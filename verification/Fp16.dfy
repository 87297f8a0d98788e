/** The generic float conversions of builtin_fp16.h, for every pair of formats their template
    parameters allow.  Numbers are bit patterns; absolute values are compared as integers, in units
    of the smallest positive number of the wide format. */
module Fp16 {
  import opened Bits

  /** An IEEE 754 interchange format: one sign bit, an exponent field and `sig` stored significand bits. */
  datatype Format = Format(bits: nat, sig: nat) {
    predicate Valid() {
      sig >= 1 && bits >= sig + 2
    }

    function ExpBits(): nat
      requires Valid()
    {
      bits - sig - 1
    }

    function InfExp(): nat
      requires Valid()
    {
      Pow2(ExpBits()) - 1
    }

    function Bias(): nat
      requires Valid()
    {
      InfExp() / 2
    }

    /** Bit pattern of infinity; larger patterns are NaNs. */
    function Infinity(): nat
      requires Valid()
    {
      Shl(InfExp(), sig)
    }
  }

  /** The value of a bit pattern without sign, in units of the smallest positive number.  Infinity
      gets the value that would follow the largest number. */
  function Magnitude(sig: nat, r: nat): nat {
    if Shr(r, sig) == 0 then Low(r, sig) else Shl(Pow2(sig) + Low(r, sig), Shr(r, sig) - 1)
  }

  /** The two formats of a conversion. */
  datatype Formats = Formats(wide: Format, narrow: Format) {
    predicate Valid() {
      && wide.Valid() && narrow.Valid() && wide.sig >= narrow.sig
      && wide.Bias() >= narrow.Bias() + narrow.sig
    }

    /** The parameters for which truncation rounds correctly. */
    predicate Truncatable() {
      Valid() && wide.sig >= narrow.sig + 2 && wide.Bias() + 1 > narrow.Bias() + wide.sig
    }

    function Rebias(): nat
      requires Valid()
    {
      wide.Bias() - narrow.Bias()
    }

    function Dropped(): nat
      requires Valid()
    {
      wide.sig - narrow.sig
    }

    /** The value of a narrow pattern in units of the wide format. */
    function Value(r: nat): nat
      requires Valid()
    {
      Shl(Magnitude(narrow.sig, r), Rebias() + Dropped())
    }
  }

  // ----- fields and values -----

  lemma FormatFacts(f: Format)
    requires f.Valid()
    ensures f.InfExp() == 2 * f.Bias() + 1
    ensures f.InfExp() + 1 == Pow2(f.ExpBits())
    ensures f.Infinity() + Pow2(f.sig) == Pow2(f.bits - 1)
  {
    Pow2Twice(f.ExpBits() - 1);
    hide Shl, Pow2;
    ShlAdd(f.InfExp(), 1, f.sig);
    OneShl(f.sig);
    ShlPow2(f.ExpBits(), f.sig);
  }

  lemma Pow2Twice(n: nat)
    ensures Pow2(n + 1) == 2 * Pow2(n)
  {
  }

  lemma {:induction false} ShlStrict(x: nat, y: nat, n: nat)
    requires x < y
    ensures Shl(x, n) < Shl(y, n)
  {
    if n > 0 {
      ShlStrict(x, y, n - 1);
    }
  }

  lemma OneShl(n: nat)
    ensures Shl(1, n) == Pow2(n)
  {
    ShlPow2(0, n);
  }

  /** The pattern with exponent field e and fraction m. */
  lemma MagnitudeOf(sig: nat, e: nat, m: nat)
    requires m < Pow2(sig)
    ensures Magnitude(sig, m + Shl(e, sig)) == if e == 0 then m else Shl(Pow2(sig) + m, e - 1)
  {
    Join(m, e, sig);
  }

  /** The exponent of the gap above a pattern. */
  function Ulp(sig: nat, r: nat): nat {
    if Shr(r, sig) == 0 then 0 else Shr(r, sig) - 1
  }

  lemma MagnitudeStep(sig: nat, r: nat)
    ensures Magnitude(sig, r + 1) == Magnitude(sig, r) + Pow2(Ulp(sig, r))
  {
    var e, m := Shr(r, sig), Low(r, sig);
    Split(r, sig);
    LowBound(r, sig);
    if m + 1 < Pow2(sig) {
      MagnitudeOf(sig, e, m + 1);
      if e > 0 {
        ShlAdd(Pow2(sig) + m, 1, e - 1);
        OneShl(e - 1);
      }
    } else {
      OneShl(sig);
      ShlAdd(e, 1, sig);
      MagnitudeOf(sig, e + 1, 0);
      if e > 0 {
        ShlAdd(Pow2(sig) + m, 1, e - 1);
        OneShl(e - 1);
        ShlAdd(Pow2(sig), Pow2(sig), e - 1);
      }
    }
  }

  lemma {:induction false} MagnitudeMono(sig: nat, r: nat, r': nat)
    requires r < r'
    ensures Magnitude(sig, r) < Magnitude(sig, r')
    decreases r'
  {
    hide Magnitude;
    MagnitudeStep(sig, r' - 1);
    if r < r' - 1 {
      MagnitudeMono(sig, r, r' - 1);
    }
  }

  lemma ValueMono(f: Formats, r: nat, r': nat)
    requires f.Valid() && r < r'
    ensures f.Value(r) < f.Value(r')
  {
    MagnitudeMono(f.narrow.sig, r, r');
    ShlStrict(Magnitude(f.narrow.sig, r), Magnitude(f.narrow.sig, r'), f.Rebias() + f.Dropped());
  }

  // ----- rounding -----

  function Distance(x: nat, y: nat): nat {
    if x <= y then y - x else x - y
  }

  /** Pattern r is the narrow number nearest to x; of two that are equally near, the one with an
      even last digit.  (Section 4.3.1 of IEEE 754-2008.) */
  ghost predicate RoundsTo(f: Formats, x: nat, r: nat)
    requires f.Valid()
  {
    && r <= f.narrow.Infinity()
    && forall q: nat :: q <= f.narrow.Infinity() && q != r ==>
         || Distance(x, f.Value(r)) < Distance(x, f.Value(q))
         || (Distance(x, f.Value(r)) == Distance(x, f.Value(q)) && r % 2 == 0)
  }

  /** q or q + 1, for an x between their values. */
  function Choose(f: Formats, x: nat, q: nat): nat
    requires f.Valid()
  {
    if 2 * x > f.Value(q) + f.Value(q + 1) then q + 1
    else if 2 * x == f.Value(q) + f.Value(q + 1) then q + q % 2
    else q
  }

  lemma ChooseRounds(f: Formats, x: nat, q: nat)
    requires f.Valid() && q < f.narrow.Infinity() && f.Value(q) <= x < f.Value(q + 1)
    ensures RoundsTo(f, x, Choose(f, x, q))
  {
    forall p: nat | p <= f.narrow.Infinity() && p != Choose(f, x, q)
      ensures var r := Choose(f, x, q);
        || Distance(x, f.Value(r)) < Distance(x, f.Value(p))
        || (Distance(x, f.Value(r)) == Distance(x, f.Value(p)) && r % 2 == 0)
    {
      if p < q {
        ValueMono(f, p, q);
      } else if p > q + 1 {
        ValueMono(f, q + 1, p);
      }
    }
  }

  lemma LargeRounds(f: Formats, x: nat)
    requires f.Valid() && f.Value(f.narrow.Infinity()) <= x
    ensures RoundsTo(f, x, f.narrow.Infinity())
  {
    forall p: nat | p < f.narrow.Infinity() ensures f.Value(p) < f.Value(f.narrow.Infinity()) {
      ValueMono(f, p, f.narrow.Infinity());
    }
  }

  lemma NotTwoRoundings(f: Formats, x: nat, lo: nat, hi: nat)
    requires f.Valid() && lo < hi <= f.narrow.Infinity()
    ensures !RoundsTo(f, x, lo) || !RoundsTo(f, x, hi)
  {
    hide Magnitude;
    ValueMono(f, lo, lo + 1);
    ValueMono(f, lo, hi);
    if hi > lo + 1 {
      ValueMono(f, lo + 1, hi);
    }
  }

  /** No other pattern is a correct rounding. */
  lemma RoundingUnique(f: Formats, x: nat, r: nat, r': nat)
    requires f.Valid() && RoundsTo(f, x, r) && RoundsTo(f, x, r')
    ensures r == r'
  {
    hide Distance;
    if r < r' {
      NotTwoRoundings(f, x, r, r');
    } else if r' < r {
      NotTwoRoundings(f, x, r', r);
    }
  }

  lemma ExactRounds(f: Formats, r: nat)
    requires f.Valid() && r <= f.narrow.Infinity()
    ensures RoundsTo(f, f.Value(r), r)
  {
    forall p: nat | p <= f.narrow.Infinity() && p != r ensures f.Value(p) != f.Value(r) {
      if p < r {
        ValueMono(f, p, r);
      } else {
        ValueMono(f, r, p);
      }
    }
  }

  // ----- truncation of normal results -----

  lemma FieldsBetween(a: nat, sig: nat, lo: nat, hi: nat)
    requires Shl(lo, sig) <= a < Shl(hi, sig)
    ensures lo <= Shr(a, sig) < hi
  {
    hide Shl, Shr, Low;
    ShrShl(lo, sig);
    ShrMono(Shl(lo, sig), a, sig);
    Split(a, sig);
    if Shr(a, sig) >= hi {
      ShlMono(hi, Shr(a, sig), sig);
    }
  }

  /** The fields of a after dropping g bits. */
  lemma DropFields(a: nat, g: nat, n: nat)
    ensures Shr(a, g) == Low(Shr(a, g), n) + Shl(Shr(a, g + n), n)
    ensures Low(a, g + n) == Low(a, g) + Shl(Low(Shr(a, g), n), g)
  {
    Split(Shr(a, g), n);
    ShrShr(a, g, n);
    LowSplit(a, g, n);
  }

  /** Dropping the low bits and rebiasing gives a pattern q, and x lies between q and q + 1. */
  lemma NormalBetween(f: Formats, a: nat)
    requires f.Truncatable()
    requires Shl(f.Rebias() + 1, f.wide.sig) <= a < Shl(f.Rebias() + f.narrow.InfExp(), f.wide.sig)
    ensures Shr(a, f.wide.sig) > f.Rebias()
    ensures Shr(a, f.Dropped()) >= Shl(f.Rebias(), f.narrow.sig)
    ensures var q, k := Shr(a, f.Dropped()) - Shl(f.Rebias(), f.narrow.sig), Shr(a, f.wide.sig) - 1;
      && q < f.narrow.Infinity()
      && Magnitude(f.wide.sig, a) == f.Value(q) + Shl(Low(a, f.Dropped()), k)
      && f.Value(q + 1) == f.Value(q) + Shl(Pow2(f.Dropped()), k)
  {
    hide Shl, Shr, Low, Pow2, Format.Bias, Format.InfExp;
    var w, n, g, b := f.wide.sig, f.narrow.sig, f.Dropped(), f.Rebias();
    FieldsBetween(a, w, b + 1, b + f.narrow.InfExp());
    var e := Shr(a, w);
    DropFields(a, g, n);
    var mh := Low(Shr(a, g), n);
    LowBound(Shr(a, g), n);
    ShlAdd(e - b, b, n);
    var q := Shr(a, g) - Shl(b, n);
    assert q == mh + Shl(e - b, n);
    ShlAdd(e - b, 1, n);
    OneShl(n);
    ShlMono(e - b + 1, f.narrow.InfExp(), n);
    NormalValue(f, e - b, mh);
    ShlAdd(Pow2(w) + Shl(mh, g), Low(a, g), e - 1);
    assert Magnitude(w, a) == Shl(Pow2(w) + Shl(mh, g), e - 1) + Shl(Low(a, g), e - 1);
  }

  /** The value of a normal narrow pattern and the gap above it. */
  lemma NormalValue(f: Formats, e: nat, m: nat)
    requires f.Valid() && e > 0 && m < Pow2(f.narrow.sig)
    ensures var q, k := m + Shl(e, f.narrow.sig), e + f.Rebias() - 1;
      && f.Value(q) == Shl(Pow2(f.wide.sig) + Shl(m, f.Dropped()), k)
      && f.Value(q + 1) == f.Value(q) + Shl(Pow2(f.Dropped()), k)
  {
    hide Shl, Shr, Low, Pow2, Magnitude, Format.Bias, Format.InfExp;
    var w, n, g, b := f.wide.sig, f.narrow.sig, f.Dropped(), f.Rebias();
    var q := m + Shl(e, n);
    MagnitudeOf(n, e, m);
    Join(m, e, n);
    ShlShl(Pow2(n) + m, e - 1, b + g);
    ShlShl(Pow2(n) + m, g, e + b - 1);
    ShlAdd(Pow2(n), m, g);
    ShlPow2(n, g);
    MagnitudeStep(n, q);
    ShlAdd(Magnitude(n, q), Pow2(e - 1), b + g);
    ShlPow2(e - 1, b + g);
    ShlPow2(g, e + b - 1);
  }

  // ----- wrapping words -----

  /** x - y on words of n bits. */
  function Sub(x: nat, y: nat, n: nat): nat
    requires y < Pow2(n)
  {
    if x >= y then x - y else x + Pow2(n) - y
  }

  /** One unsigned comparison tests both ends of a range. */
  lemma RangeTest(a: nat, lo: nat, hi: nat, n: nat)
    requires lo <= hi < Pow2(n) && a < Pow2(n)
    ensures Sub(a, lo, n) < Sub(a, hi, n) <==> lo <= a < hi
  {
  }

  lemma RangeTestFixed(a: nat, lo: nat, hi: nat, n: nat)
    requires lo <= hi < Pow2(n) && a < Pow2(n)
    ensures Sub(a, lo, n) < hi - lo <==> lo <= a < hi
  {
  }

  /** A subtraction of words is exact when the true difference fits. */
  lemma SubExact(x: nat, y: nat, n: nat)
    requires y <= x < y + Pow2(n)
    ensures Low(y, n) < Pow2(n) && Sub(Low(x, n), Low(y, n), n) == x - y
  {
    hide Shl, Shr, Low;
    Split(x, n);
    Split(y, n);
    LowBound(x, n);
    LowBound(y, n);
    var hx, hy := Shr(x, n), Shr(y, n);
    ShrMono(y, x, n);
    ShlAdd(hy, hx - hy, n);
    OneShl(n);
    if hx - hy >= 2 {
      ShlMono(2, hx - hy, n);
      ShlAdd(1, 1, n);
    } else if hx - hy == 0 {
      ShlZero(n);
    }
  }

  lemma {:induction false} ShlZero(n: nat)
    ensures Shl(0, n) == 0
  {
    if n > 0 {
      ShlZero(n - 1);
    }
  }

  // ----- truncation of subnormal results -----

  lemma {:induction false} ShrLe(x: nat, n: nat)
    ensures Shr(x, n) <= x
  {
    if n > 0 {
      ShrLe(x / 2, n - 1);
    }
  }

  lemma ZeroValue(f: Formats)
    requires f.Valid()
    ensures f.Value(0) == 0 && f.Value(1) == Pow2(f.Rebias() + f.Dropped())
  {
    var n := f.narrow.sig;
    LowSmall(0, n);
    MagnitudeStep(n, 0);
    ShlZero(f.Rebias() + f.Dropped());
    OneShl(f.Rebias() + f.Dropped());
  }

  lemma SubnormalValue(f: Formats, q: nat)
    requires f.Valid() && q < Pow2(f.narrow.sig)
    ensures q < f.narrow.Infinity()
    ensures f.Value(q) == Shl(q, f.Rebias() + f.Dropped())
    ensures f.Value(q + 1) == f.Value(q) + Pow2(f.Rebias() + f.Dropped())
  {
    hide Shl, Shr, Low, Format.InfExp, Format.Bias;
    var n := f.narrow.sig;
    LowSmall(q, n);
    MagnitudeStep(n, q);
    ShlAdd(q, 1, f.Rebias() + f.Dropped());
    OneShl(f.Rebias() + f.Dropped());
    OneShl(n);
    FormatFacts(f.narrow);
    ShlMono(1, f.narrow.InfExp(), n);
  }

  /** Shifted out completely: less than half the smallest positive number. */
  lemma TinyRounds(f: Formats, a: nat)
    requires f.Truncatable() && Shr(a, f.wide.sig) + f.wide.sig <= f.Rebias()
    ensures RoundsTo(f, Magnitude(f.wide.sig, a), 0)
  {
    hide Shl, Shr, Low, Format.InfExp, Format.Bias;
    var w, b, e := f.wide.sig, f.Rebias(), Shr(a, f.wide.sig);
    ZeroValue(f);
    LowBound(a, w);
    if e > 0 {
      ShlStrict(Pow2(w) + Low(a, w), Pow2(w + 1), e - 1);
      ShlPow2(w + 1, e - 1);
    }
    Pow2Mono(w + e, b);
    Pow2Mono(b + 1, b + f.Dropped());
    FormatFacts(f.narrow);
    OneShl(f.narrow.sig);
    ShlMono(1, f.narrow.InfExp(), f.narrow.sig);
    ChooseRounds(f, Magnitude(w, a), 0);
  }

  /** Shifting the significand right by c bits gives a subnormal pattern q, and x lies between q and
      q + 1. */
  lemma SubnormalBetween(f: Formats, a: nat, shift: nat)
    requires f.Truncatable() && shift > 0 && Shr(a, f.wide.sig) > 0 && Shr(a, f.wide.sig) + shift == f.Rebias() + 1
    ensures var c, k := shift + f.Dropped(), Shr(a, f.wide.sig) - 1;
      var significand := Pow2(f.wide.sig) + Low(a, f.wide.sig);
      var q := Shr(significand, c);
      && q < f.narrow.Infinity()
      && Magnitude(f.wide.sig, a) == f.Value(q) + Shl(Low(significand, c), k)
      && f.Value(q + 1) == f.Value(q) + Shl(Pow2(c), k)
  {
    hide Shl, Shr, Low, Format.InfExp, Format.Bias;
    var w, n, g := f.wide.sig, f.narrow.sig, f.Dropped();
    var c, k := shift + g, Shr(a, w) - 1;
    var significand := Pow2(w) + Low(a, w);
    LowBound(a, w);
    ShrBound(significand, 1 + g, n);
    ShrShr(significand, 1 + g, shift - 1);
    ShrLe(Shr(significand, 1 + g), shift - 1);
    var q := Shr(significand, c);
    SubnormalValue(f, q);
    Split(significand, c);
    ShlAdd(Low(significand, c), Shl(q, c), k);
    ShlShl(q, c, k);
    ShlPow2(c, k);
  }

  /** x | sticky */
  function OrBit(x: nat, sticky: bool): nat {
    if sticky && x % 2 == 0 then x + 1 else x
  }

  lemma {:induction false} LowShl(x: nat, a: nat, b: nat)
    ensures Low(Shl(x, a), a + b) == Shl(Low(x, b), a)
    decreases a
  {
    if a > 0 {
      LowShl(x, a - 1, b);
    }
  }

  /** The shift that computes the sticky bit loses exactly the bits it should. */
  lemma StickyTest(x: nat, shift: nat, bits: nat)
    requires shift <= bits
    ensures Low(Shl(x, bits - shift), bits) != 0 <==> Low(x, shift) != 0
  {
    LowShl(x, bits - shift, shift);
    ShlZero(bits - shift);
    if Low(x, shift) != 0 {
      ShlStrict(0, Low(x, shift), bits - shift);
    }
  }

  /** Comparing the rounding bits with the sticky bit compares all the bits that are dropped. */
  lemma StickyRounds(x: nat, shift: nat, g: nat)
    requires g >= 2
    ensures var d, c := OrBit(Shr(x, shift), Low(x, shift) != 0), shift + g;
      && Shr(d, g) == Shr(x, c)
      && (Low(d, g) > Pow2(g - 1) <==> Low(x, c) > Pow2(c - 1))
      && (Low(d, g) == Pow2(g - 1) <==> Low(x, c) == Pow2(c - 1))
  {
    var h, t := Shr(x, shift), Low(x, shift);
    ShrShr(x, shift, g);
    LowSplit(x, shift, g);
    LowBound(x, shift);
    ShlPow2(g - 1, shift);
    var lo, half := Low(h, g), Pow2(g - 1);
    assert lo == h % 2 + 2 * Low(h / 2, g - 1) && half == 2 * Pow2(g - 2);
    hide Shr, Low, Pow2;
    CompareShifted(lo, t, half, shift);
    OrBitLow(h, g, t != 0);
  }

  lemma OrBitLow(h: nat, g: nat, sticky: bool)
    requires g >= 1
    ensures Low(OrBit(h, sticky), g) == (if sticky then 1 else h % 2) + 2 * Low(h / 2, g - 1)
    ensures Shr(OrBit(h, sticky), g) == Shr(h, g)
  {
  }

  lemma CompareShifted(lo: nat, t: nat, half: nat, shift: nat)
    requires t < Pow2(shift)
    ensures t + Shl(lo, shift) > Shl(half, shift) <==> lo > half || (lo == half && t > 0)
    ensures t + Shl(lo, shift) == Shl(half, shift) <==> lo == half && t == 0
  {
    hide Shl;
    ShlAdd(lo, 1, shift);
    OneShl(shift);
    if lo < half {
      ShlMono(lo + 1, half, shift);
    } else if lo > half {
      ShlStrict(half, lo, shift);
    }
  }

  // ----- the conversion -----

  /** absResult rounded to nearest, ties to even, on words of the given width. */
  function Rounded(absResult: nat, roundBits: nat, halfway: nat, bits: nat): nat {
    if roundBits > halfway then Low(absResult + 1, bits)
    else if roundBits == halfway then Low(absResult + absResult % 2, bits)
    else absResult
  }

  lemma RoundedIsNearest(f: Formats, x: nat, q: nat, lo: nat, c: nat, k: nat, roundBits: nat, halfway: nat)
    requires f.Valid() && q < f.narrow.Infinity() && c >= 1 && lo < Pow2(c)
    requires x == f.Value(q) + Shl(lo, k) && f.Value(q + 1) == f.Value(q) + Shl(Pow2(c), k)
    requires roundBits > halfway <==> lo > Pow2(c - 1)
    requires roundBits == halfway <==> lo == Pow2(c - 1)
    ensures RoundsTo(f, x, Rounded(q, roundBits, halfway, f.narrow.bits))
  {
    hide Shl, Low, Magnitude, Format.InfExp, Format.Bias;
    ShlStrict(lo, Pow2(c), k);
    ShlAdd(lo, lo, k);
    if 2 * lo < Pow2(c) {
      ShlStrict(2 * lo, Pow2(c), k);
    } else if 2 * lo > Pow2(c) {
      ShlStrict(Pow2(c), 2 * lo, k);
    }
    ChooseRounds(f, x, q);
    FormatFacts(f.narrow);
    Pow2Mono(f.narrow.bits - 1, f.narrow.bits);
    LowSmall(q + 1, f.narrow.bits);
    LowSmall(q, f.narrow.bits);
  }

  function SignOf(f: Format, a: nat): nat
    requires f.Valid()
  {
    Shr(a, f.bits - 1)
  }

  function AbsOf(f: Format, a: nat): nat
    requires f.Valid()
  {
    Low(a, f.bits - 1)
  }

  predicate IsNaN(f: Format, a: nat)
    requires f.Valid()
  {
    AbsOf(f, a) > f.Infinity()
  }

  predicate IsQuiet(f: Format, a: nat)
    requires f.Valid()
  {
    IsNaN(f, a) && Bit(a, f.sig - 1)
  }

  /** r is a correctly rounded to the narrow format: same sign, nearest absolute value, and for a NaN
      the quiet NaN with the upper bits of the payload. */
  ghost predicate TruncatesTo(f: Formats, a: nat, r: nat)
    requires f.Truncatable()
  {
    && r < Pow2(f.narrow.bits) && SignOf(f.narrow, r) == SignOf(f.wide, a)
    && if IsNaN(f.wide, a)
       then AbsOf(f.narrow, r) == f.narrow.Infinity() + Pow2(f.narrow.sig - 1) + Shr(Low(a, f.wide.sig - 1), f.Dropped())
       else RoundsTo(f, Magnitude(f.wide.sig, AbsOf(f.wide, a)), AbsOf(f.narrow, r))
  }

  /** A truncated value has only one correct result. */
  lemma TruncationUnique(f: Formats, a: nat, r: nat, r': nat)
    requires f.Truncatable() && TruncatesTo(f, a, r) && TruncatesTo(f, a, r')
    ensures r == r'
  {
    hide RoundsTo, Shl, Shr, Low;
    if !IsNaN(f.wide, a) {
      RoundingUnique(f, Magnitude(f.wide.sig, AbsOf(f.wide, a)), AbsOf(f.narrow, r), AbsOf(f.narrow, r'));
    }
    Split(r, f.narrow.bits - 1);
    Split(r', f.narrow.bits - 1);
  }

  lemma NormalCase(f: Formats, a: nat)
    requires f.Truncatable()
    requires Shl(f.Rebias() + 1, f.wide.sig) <= a < Shl(f.Rebias() + f.narrow.InfExp(), f.wide.sig)
    ensures Low(Shl(f.Rebias(), f.narrow.sig), f.narrow.bits) < Pow2(f.narrow.bits)
    ensures var absResult := Sub(Low(Shr(a, f.Dropped()), f.narrow.bits), Low(Shl(f.Rebias(), f.narrow.sig), f.narrow.bits), f.narrow.bits);
      RoundsTo(f, Magnitude(f.wide.sig, a), Rounded(absResult, Low(a, f.Dropped()), Pow2(f.Dropped() - 1), f.narrow.bits))
  {
    hide Shl, Shr, Low, RoundsTo, Rounded, Magnitude, Format.InfExp, Format.Bias;
    NormalBetween(f, a);
    FormatFacts(f.narrow);
    Pow2Mono(f.narrow.bits - 1, f.narrow.bits);
    SubExact(Shr(a, f.Dropped()), Shl(f.Rebias(), f.narrow.sig), f.narrow.bits);
    LowBound(a, f.Dropped());
    RoundedIsNearest(f, Magnitude(f.wide.sig, a), Shr(a, f.Dropped()) - Shl(f.Rebias(), f.narrow.sig),
                     Low(a, f.Dropped()), f.Dropped(), Shr(a, f.wide.sig) - 1, Low(a, f.Dropped()), Pow2(f.Dropped() - 1));
  }

  lemma SubnormalCase(f: Formats, a: nat, shift: nat)
    requires f.Truncatable() && 0 < shift <= f.wide.sig && Shr(a, f.wide.sig) + shift == f.Rebias() + 1
    ensures var significand := Low(a, f.wide.sig) + Pow2(f.wide.sig);
      var d := OrBit(Shr(significand, shift), Low(Shl(significand, f.wide.bits - shift), f.wide.bits) != 0);
      RoundsTo(f, Magnitude(f.wide.sig, a),
               Rounded(Low(Shr(d, f.Dropped()), f.narrow.bits), Low(d, f.Dropped()), Pow2(f.Dropped() - 1), f.narrow.bits))
  {
    hide Shl, Shr, Low, RoundsTo, Rounded, Magnitude, OrBit, Format.InfExp, Format.Bias;
    var significand := Low(a, f.wide.sig) + Pow2(f.wide.sig);
    var c := shift + f.Dropped();
    StickyTest(significand, shift, f.wide.bits);
    StickyRounds(significand, shift, f.Dropped());
    SubnormalBetween(f, a, shift);
    LowBound(significand, c);
    FormatFacts(f.narrow);
    Pow2Mono(f.narrow.bits - 1, f.narrow.bits);
    LowSmall(Shr(significand, c), f.narrow.bits);
    var d := OrBit(Shr(significand, shift), Low(Shl(significand, f.wide.bits - shift), f.wide.bits) != 0);
    RoundedIsNearest(f, Magnitude(f.wide.sig, a), Shr(significand, c), Low(significand, c), c, Shr(a, f.wide.sig) - 1,
                     Low(d, f.Dropped()), Pow2(f.Dropped() - 1));
  }

  lemma OverflowCase(f: Formats, a: nat)
    requires f.Valid() && a >= Shl(f.Rebias() + f.narrow.InfExp(), f.wide.sig)
    ensures RoundsTo(f, Magnitude(f.wide.sig, a), f.narrow.Infinity())
  {
    hide Shl, Shr, Low, RoundsTo, Magnitude, Format.InfExp, Format.Bias;
    var w, n, e := f.wide.sig, f.narrow.sig, f.narrow.InfExp();
    FormatFacts(f.narrow);
    var o := Shl(f.Rebias() + e, w);
    MagnitudeOf(w, f.Rebias() + e, 0);
    if a > o {
      MagnitudeMono(w, o, a);
    }
    MagnitudeOf(n, e, 0);
    ShlPow2(w, f.Rebias() + e - 1);
    ShlPow2(n, e - 1);
    ShlPow2(n + e - 1, f.Rebias() + f.Dropped());
    LargeRounds(f, Magnitude(w, a));
  }

  /** The bounds of the range test are words, and a wide word is at least as long as a narrow one. */
  lemma Words(f: Formats)
    requires f.Valid()
    ensures Shl(f.Rebias() + 1, f.wide.sig) <= Shl(f.Rebias() + f.narrow.InfExp(), f.wide.sig) <= f.wide.Infinity() < Pow2(f.wide.bits - 1)
    ensures Pow2(f.wide.bits) == 2 * Pow2(f.wide.bits - 1)
    ensures Low(Shl(f.Rebias() + 1, f.wide.sig), f.wide.bits) == Shl(f.Rebias() + 1, f.wide.sig)
    ensures Low(Shl(f.Rebias() + f.narrow.InfExp(), f.wide.sig), f.wide.bits) == Shl(f.Rebias() + f.narrow.InfExp(), f.wide.sig)
    ensures f.narrow.bits <= f.wide.bits
  {
    hide Shl, Low, Format.InfExp, Format.Bias;
    FormatFacts(f.wide);
    FormatFacts(f.narrow);
    assert Pow2(f.wide.bits) == 2 * Pow2(f.wide.bits - 1);
    hide Pow2;
    ShlMono(f.Rebias() + 1, f.Rebias() + f.narrow.InfExp(), f.wide.sig);
    ShlMono(f.Rebias() + f.narrow.InfExp(), f.wide.InfExp(), f.wide.sig);
    LowSmall(Shl(f.Rebias() + 1, f.wide.sig), f.wide.bits);
    LowSmall(Shl(f.Rebias() + f.narrow.InfExp(), f.wide.sig), f.wide.bits);
    if f.wide.ExpBits() < f.narrow.ExpBits() {
      Pow2Mono(f.wide.ExpBits() + 1, f.narrow.ExpBits());
      Pow2Twice(f.wide.ExpBits());
    }
  }

  /** Putting the sign back on an absolute value. */
  lemma SignApplied(absResult: nat, sign: nat, from: nat, to: nat)
    requires 0 < to <= from && sign < 2 && absResult < Pow2(to - 1)
    ensures var r := absResult + Shr(Shl(sign, from - 1), from - to);
      r < Pow2(to) && Low(r, to - 1) == absResult && Shr(r, to - 1) == sign
  {
    hide Shl, Shr, Low;
    ShlShl(sign, to - 1, from - to);
    ShrShl(Shl(sign, to - 1), from - to);
    Join(absResult, sign, to - 1);
    OneShl(to - 1);
    ShlZero(to - 1);
    Pow2Twice(to - 1);
  }

  lemma SignBit(a: nat, bits: nat)
    requires 0 < bits && a < Pow2(bits)
    ensures Shr(a, bits - 1) < 2
  {
    ShrBound(a, bits - 1, 1);
  }

  /** The absolute value of the result. */
  method TruncateAbs(f: Formats, aAbs: nat) returns (absResult: nat)
    requires f.Truncatable() && aAbs < Pow2(f.wide.bits - 1)
    ensures absResult < Pow2(f.narrow.bits - 1)
    ensures aAbs > f.wide.Infinity() ==>
      absResult == f.narrow.Infinity() + Pow2(f.narrow.sig - 1) + Shr(Low(aAbs, f.wide.sig - 1), f.Dropped())
    ensures aAbs <= f.wide.Infinity() ==> RoundsTo(f, Magnitude(f.wide.sig, aAbs), absResult)
  {
    hide Shl, Shr, Low, Magnitude, Rounded, OrBit, Format.InfExp, Format.Bias;
    Words(f);
    FormatFacts(f.narrow);
    var srcBits, srcSig, dstBits, dstSig := f.wide.bits, f.wide.sig, f.narrow.bits, f.narrow.sig;
    var dropped := srcSig - dstSig;
    var halfway := Pow2(dropped - 1);
    var dstInfExp := f.narrow.InfExp();
    var underflowExponent := f.wide.Bias() + 1 - f.narrow.Bias();
    var overflowExponent := f.wide.Bias() + dstInfExp - f.narrow.Bias();
    var underflow := Low(Shl(underflowExponent, srcSig), srcBits);
    var overflow := Low(Shl(overflowExponent, srcSig), srcBits);
    RangeTest(aAbs, underflow, overflow, srcBits);
    if Sub(aAbs, underflow, srcBits) < Sub(aAbs, overflow, srcBits) {
      NormalCase(f, aAbs);
      absResult := Low(Shr(aAbs, dropped), dstBits);
      absResult := Sub(absResult, Low(Shl(f.wide.Bias() - f.narrow.Bias(), dstSig), dstBits), dstBits);
      absResult := Rounded(absResult, Low(aAbs, dropped), halfway, dstBits);
    } else if aAbs > f.wide.Infinity() {
      absResult := Shl(dstInfExp, dstSig);
      absResult := absResult + Pow2(dstSig - 1);
      absResult := absResult + Low(Shr(Low(aAbs, srcSig - 1), dropped), dstSig - 1);
      PayloadFits(f, aAbs);
    } else if aAbs >= overflow {
      OverflowCase(f, aAbs);
      absResult := Shl(dstInfExp, dstSig);
    } else {
      var aExp := Shr(aAbs, srcSig);
      FieldsBelow(aAbs, srcSig, underflowExponent);
      var shift := f.wide.Bias() - f.narrow.Bias() - aExp + 1;
      var significand := Low(aAbs, srcSig) + Pow2(srcSig);
      if shift > srcSig {
        TinyRounds(f, aAbs);
        absResult := 0;
      } else {
        SubnormalCase(f, aAbs, shift);
        var sticky := Low(Shl(significand, srcBits - shift), srcBits) != 0;
        var denormalizedSignificand := OrBit(Shr(significand, shift), sticky);
        absResult := Low(Shr(denormalizedSignificand, dropped), dstBits);
        absResult := Rounded(absResult, Low(denormalizedSignificand, dropped), halfway, dstBits);
      }
    }
  }

  lemma FieldsBelow(a: nat, sig: nat, hi: nat)
    requires a < Shl(hi, sig)
    ensures Shr(a, sig) < hi
  {
    ShlZero(sig);
    FieldsBetween(a, sig, 0, hi);
  }

  lemma PayloadFits(f: Formats, a: nat)
    requires f.Valid()
    ensures Low(Shr(Low(a, f.wide.sig - 1), f.Dropped()), f.narrow.sig - 1) == Shr(Low(a, f.wide.sig - 1), f.Dropped())
    ensures f.narrow.Infinity() + Pow2(f.narrow.sig - 1) + Shr(Low(a, f.wide.sig - 1), f.Dropped()) < Pow2(f.narrow.bits - 1)
  {
    hide Shl, Shr, Low, Format.InfExp, Format.Bias;
    LowBound(a, f.wide.sig - 1);
    ShrBound(Low(a, f.wide.sig - 1), f.Dropped(), f.narrow.sig - 1);
    LowSmall(Shr(Low(a, f.wide.sig - 1), f.Dropped()), f.narrow.sig - 1);
    FormatFacts(f.narrow);
    Pow2Twice(f.narrow.sig - 1);
  }

  /** __truncXfYf2__ rounds correctly. */
  method TruncXfYf2(f: Formats, aRep: nat) returns (result: nat)
    requires f.Truncatable() && aRep < Pow2(f.wide.bits)
    ensures TruncatesTo(f, aRep, result)
  {
    hide Shl, Shr, Low, Magnitude, RoundsTo, Format.InfExp, Format.Bias;
    var srcBits, dstBits := f.wide.bits, f.narrow.bits;
    var aAbs := Low(aRep, srcBits - 1);
    var sign := Shl(Shr(aRep, srcBits - 1), srcBits - 1);
    LowBound(aRep, srcBits - 1);
    Words(f);
    var absResult := TruncateAbs(f, aAbs);
    result := absResult + Shr(sign, srcBits - dstBits);
    SignBit(aRep, srcBits);
    SignApplied(absResult, Shr(aRep, srcBits - 1), srcBits, dstBits);
    LowLow(aRep, f.wide.sig - 1, srcBits - 1);
  }

  // ----- leading zeros -----

  /** The number of significant bits of x. */
  function Length(x: nat): nat {
    if x == 0 then 0 else 1 + Length(x / 2)
  }

  lemma {:induction false} LengthShr(x: nat, k: nat)
    ensures Length(Shr(x, k)) == if Length(x) <= k then 0 else Length(x) - k
    ensures Shr(x, k) == 0 <==> Length(x) <= k
  {
    if k > 0 {
      LengthShr(x / 2, k - 1);
    }
  }

  lemma {:induction false} LengthBounds(x: nat)
    ensures x < Pow2(Length(x)) && (x > 0 <==> Length(x) > 0) && (x > 0 ==> Pow2(Length(x) - 1) <= x)
  {
    if x > 0 {
      LengthBounds(x / 2);
      if x / 2 == 0 {
        assert Pow2(0) == 1 && Pow2(1) == 2;
      }
    }
  }

  lemma {:induction false} LengthBelow(x: nat, n: nat)
    requires x < Pow2(n)
    ensures Length(x) <= n
  {
    if x > 0 {
      LengthBelow(x / 2, n - 1);
    }
  }

  lemma LengthSmall(x: nat)
    requires Length(x) <= 2
    ensures if x / 2 == 0 then Length(x) == x else Length(x) == 2
  {
  }

  /** __clz: the number of leading zeros of a 32-bit word. */
  method Clz(x0: nat) returns (r: nat)
    requires x0 < Pow2(32)
    ensures r <= 32 && x0 < Pow2(32 - r) && (r < 32 ==> Pow2(31 - r) <= x0)
    ensures r == 32 - Length(x0)
  {
    hide Shr, Pow2, Length;
    LengthBelow(x0, 32);
    LengthBounds(x0);
    var n, x := 32, x0;
    var y := Shr(x, 16);
    LengthShr(x, 16);
    if y != 0 {
      n := n - 16;
      x := y;
    }
    y := Shr(x, 8);
    LengthShr(x, 8);
    if y != 0 {
      n := n - 8;
      x := y;
    }
    y := Shr(x, 4);
    LengthShr(x, 4);
    if y != 0 {
      n := n - 4;
      x := y;
    }
    y := Shr(x, 2);
    LengthShr(x, 2);
    if y != 0 {
      n := n - 2;
      x := y;
    }
    LengthSmall(x);
    y := x / 2;
    if y != 0 {
      return n - 2;
    }
    return n - x;
  }

  // ----- extension -----

  /** r is exactly a in the wide format: same sign, same value; infinity for infinity, and a NaN with
      the same payload for a NaN. */
  ghost predicate ExtendsTo(f: Formats, a: nat, r: nat)
    requires f.Valid()
  {
    && r < Pow2(f.wide.bits) && SignOf(f.wide, r) == SignOf(f.narrow, a)
    && ExtendsAbs(f, AbsOf(f.narrow, a), AbsOf(f.wide, r))
  }

  ghost predicate ExtendsAbs(f: Formats, a: nat, r: nat)
    requires f.Valid()
  {
    if a > f.narrow.Infinity() then r == f.wide.Infinity() + Shl(Low(a, f.narrow.sig), f.Dropped())
    else if a == f.narrow.Infinity() then r == f.wide.Infinity()
    else r < f.wide.Infinity() && Magnitude(f.wide.sig, r) == f.Value(a)
  }

  /** Rebiasing a normal number. */
  lemma NormalExtends(f: Formats, a: nat)
    requires f.Valid() && Pow2(f.narrow.sig) <= a < f.narrow.Infinity()
    ensures ExtendsAbs(f, a, Shl(a, f.Dropped()) + Shl(f.Rebias(), f.wide.sig))
    ensures Shl(a, f.Dropped()) + Shl(f.Rebias(), f.wide.sig) < f.wide.Infinity()
  {
    hide Shl, Shr, Low, Pow2, Magnitude, Format.InfExp, Format.Bias;
    var w, n, g, b := f.wide.sig, f.narrow.sig, f.Dropped(), f.Rebias();
    OneShl(n);
    FieldsBetween(a, n, 1, f.narrow.InfExp());
    var e, m := Shr(a, n), Low(a, n);
    Split(a, n);
    LowBound(a, n);
    FormatFacts(f.narrow);
    FormatFacts(f.wide);
    // the pattern of the result has exponent field e + b and fraction m << g
    ShlAdd(m, Shl(e, n), g);
    ShlShl(e, n, g);
    ShlAdd(e, b, w);
    ShlStrict(m, Pow2(n), g);
    ShlPow2(n, g);
    MagnitudeOf(w, e + b, Shl(m, g));
    ShlAdd(e + b, 1, w);
    OneShl(w);
    ShlMono(e + b + 1, f.wide.InfExp(), w);
    NormalValue(f, e, m);
  }

  /** Renormalizing a subnormal number. */
  lemma SubnormalExtends(f: Formats, a: nat, scale: nat)
    requires f.Valid() && 0 < a < Pow2(f.narrow.sig) && Length(a) + scale == f.narrow.sig + 1
    ensures Pow2(f.wide.sig) <= Shl(a, f.Dropped() + scale) < 2 * Pow2(f.wide.sig)
    ensures scale <= f.Rebias()
    ensures ExtendsAbs(f, a, Shl(a, f.Dropped() + scale) - Pow2(f.wide.sig) + Shl(f.Rebias() - scale + 1, f.wide.sig))
    ensures Shl(a, f.Dropped() + scale) - Pow2(f.wide.sig) + Shl(f.Rebias() - scale + 1, f.wide.sig) < f.wide.Infinity()
  {
    hide Shl, Shr, Low, Magnitude, Format.InfExp, Format.Bias;
    var w, n, g, b := f.wide.sig, f.narrow.sig, f.Dropped(), f.Rebias();
    LengthBounds(a);
    ShlMono(Pow2(Length(a) - 1), a, g + scale);
    ShlStrict(a, Pow2(Length(a)), g + scale);
    ShlPow2(Length(a) - 1, g + scale);
    ShlPow2(Length(a), g + scale);
    Pow2Twice(w);
    hide Pow2;
    FormatFacts(f.narrow);
    FormatFacts(f.wide);
    MagnitudeOf(w, b - scale + 1, Shl(a, g + scale) - Pow2(w));
    ShlShl(a, g + scale, b - scale);
    SubnormalValue(f, a);
    ShlAdd(b - scale + 1, 1, w);
    OneShl(w);
    ShlMono(b - scale + 2, f.wide.InfExp(), w);
  }

  lemma ZeroExtends(f: Formats)
    requires f.Valid()
    ensures ExtendsAbs(f, 0, 0)
  {
    hide Shl, Format.InfExp, Format.Bias;
    ZeroValue(f);
    LowSmall(0, f.wide.sig);
    FormatFacts(f.narrow);
    FormatFacts(f.wide);
    OneShl(f.narrow.sig);
    ShlMono(1, f.narrow.InfExp(), f.narrow.sig);
    OneShl(f.wide.sig);
    ShlMono(1, f.wide.InfExp(), f.wide.sig);
  }

  /** The NaN and infinity branch. */
  lemma SpecialExtends(f: Formats, a: nat)
    requires f.Valid() && f.narrow.Infinity() <= a < Pow2(f.narrow.bits - 1)
    ensures Low(a, f.narrow.sig) == Shl(Low(Shr(a, f.narrow.sig - 1), 1), f.narrow.sig - 1) + Low(a, f.narrow.sig - 1)
    ensures ExtendsAbs(f, a, f.wide.Infinity() + Shl(Low(a, f.narrow.sig), f.Dropped()))
    ensures f.wide.Infinity() + Shl(Low(a, f.narrow.sig), f.Dropped()) < Pow2(f.wide.bits - 1)
    ensures a == f.narrow.Infinity() + Low(a, f.narrow.sig)
  {
    hide Shl, Shr, Low, Pow2, Format.InfExp, Format.Bias;
    var n, g := f.narrow.sig, f.Dropped();
    LowSplit(a, n - 1, 1);
    FormatFacts(f.narrow);
    FormatFacts(f.wide);
    Join(a - f.narrow.Infinity(), f.narrow.InfExp(), n);
    LowBound(a, n);
    ShlStrict(Low(a, n), Pow2(n), g);
    ShlPow2(n, g);
    ShlZero(g);
  }

  lemma ShrNone(x: nat)
    ensures Shr(x, 0) == x
  {
  }

  lemma {:induction false} LengthPow2(n: nat)
    ensures Length(Pow2(n)) == n + 1
  {
    if n > 0 {
      LengthPow2(n - 1);
    } else {
      assert Length(1) == 1 + Length(0);
    }
  }

  lemma LengthPositive(x: nat)
    requires x > 0
    ensures Length(x) > 0
  {
  }

  lemma ExtendBounds(f: Formats)
    requires f.Valid() && f.narrow.bits <= 32
    ensures Pow2(f.narrow.sig) <= f.narrow.Infinity() < Pow2(f.narrow.bits - 1) <= Pow2(f.narrow.bits) <= Pow2(32)
    ensures Pow2(f.wide.sig) <= f.wide.Infinity() < Pow2(f.wide.bits - 1) <= Pow2(f.wide.bits)
  {
    hide Shl, Pow2, Format.InfExp, Format.Bias;
    FormatFacts(f.narrow);
    FormatFacts(f.wide);
    OneShl(f.narrow.sig);
    ShlMono(1, f.narrow.InfExp(), f.narrow.sig);
    OneShl(f.wide.sig);
    ShlMono(1, f.wide.InfExp(), f.wide.sig);
    Pow2Mono(f.narrow.bits - 1, f.narrow.bits);
    Pow2Mono(f.narrow.bits, 32);
    Pow2Mono(f.wide.bits - 1, f.wide.bits);
  }

  /** x with bit k flipped. */
  function Flip(x: nat, k: nat): nat {
    if Bit(x, k) then Low(x, k) + Shl(Shr(x, k) - 1, k) else Low(x, k) + Shl(Shr(x, k) + 1, k)
  }

  lemma FlipLeading(x: nat, k: nat)
    requires Pow2(k) <= x < 2 * Pow2(k)
    ensures Flip(x, k) == x - Pow2(k) < Pow2(k)
  {
    hide Shl, Shr, Low;
    OneShl(k);
    ShlAdd(1, 1, k);
    FieldsBetween(x, k, 1, 2);
    Split(x, k);
    LowBound(x, k);
    ShlZero(k);
  }

  /** __extendXfYf2__ is exact. */
  method ExtendXfYf2(f: Formats, aRep: nat) returns (result: nat)
    requires f.Valid() && f.narrow.bits <= 32 && aRep < Pow2(f.narrow.bits)
    ensures ExtendsTo(f, aRep, result)
  {
    hide Shl, Shr, Low, Pow2, Magnitude, ExtendsAbs, Format.InfExp, Format.Bias;
    var srcBits, dstBits := f.narrow.bits, f.wide.bits;
    var aAbs := Low(aRep, srcBits - 1);
    var sign := Shr(aRep, srcBits - 1);
    LowBound(aRep, srcBits - 1);
    Words(f);
    var absResult := ExtendAbs(f, aAbs);
    result := absResult + Shl(Shl(sign, srcBits - 1), dstBits - srcBits);
    SignBit(aRep, srcBits);
    ShlShl(sign, srcBits - 1, dstBits - srcBits);
    SignApplied(absResult, sign, dstBits, dstBits);
    ShrNone(Shl(sign, dstBits - 1));
  }

  /** The absolute value of the result. */
  method ExtendAbs(f: Formats, aAbs: nat) returns (absResult: nat)
    requires f.Valid() && f.narrow.bits <= 32 && aAbs < Pow2(f.narrow.bits - 1)
    ensures ExtendsAbs(f, aAbs, absResult) && absResult < Pow2(f.wide.bits - 1)
  {
    hide Shl, Shr, Low, Pow2, Magnitude, ExtendsAbs, Length, Format.InfExp, Format.Bias;
    var srcBits, srcSig, dstBits, dstSig := f.narrow.bits, f.narrow.sig, f.wide.bits, f.wide.sig;
    var srcMinNormal := Pow2(srcSig);
    var srcInfinity := f.narrow.Infinity();
    Words(f);
    ExtendBounds(f);
    RangeTestFixed(aAbs, srcMinNormal, srcInfinity, srcBits);
    if Sub(aAbs, srcMinNormal, srcBits) < srcInfinity - srcMinNormal {
      NormalExtends(f, aAbs);
      LowSmall(Shl(aAbs, dstSig - srcSig), dstBits);
      LowSmall(Shl(f.Rebias(), dstSig), dstBits);
      LowSmall(Shl(aAbs, dstSig - srcSig) + Shl(f.Rebias(), dstSig), dstBits);
      absResult := Low(Shl(aAbs, dstSig - srcSig), dstBits);
      absResult := Low(absResult + Low(Shl(f.wide.Bias() - f.narrow.Bias(), dstSig), dstBits), dstBits);
    } else if aAbs >= srcInfinity {
      SpecialExtends(f, aAbs);
      absResult := Shl(f.wide.InfExp(), dstSig);
      var quiet := Shl(Low(Shr(aAbs, srcSig - 1), 1), srcSig - 1);
      absResult := absResult + Shl(quiet, dstSig - srcSig);
      absResult := absResult + Shl(Low(aAbs, srcSig - 1), dstSig - srcSig);
      ShlAdd(quiet, Low(aAbs, srcSig - 1), dstSig - srcSig);
    } else if aAbs != 0 {
      var zeros := Clz(aAbs);
      var zerosMin := Clz(srcMinNormal);
      LengthPow2(srcSig);
      LengthBelow(aAbs, srcSig);
      LengthPositive(aAbs);
      var scale := zeros - zerosMin;
      SubnormalExtends(f, aAbs, scale);
      var leading := Shl(aAbs, dstSig - srcSig + scale);
      LowSmall(leading, dstBits);
      FlipLeading(leading, dstSig);
      absResult := Flip(Low(leading, dstBits), dstSig);
      var resultExponent := f.wide.Bias() - f.narrow.Bias() - scale + 1;
      absResult := absResult + Shl(resultExponent, dstSig);
    } else {
      ZeroExtends(f);
      absResult := 0;
    }
  }

  // ----- extending and truncating back -----

  lemma BackFinite(f: Formats, a: nat, x: nat, r: nat)
    requires f.Truncatable() && a <= f.narrow.Infinity() && ExtendsAbs(f, a, x)
    requires RoundsTo(f, Magnitude(f.wide.sig, x), r)
    ensures r == a
  {
    hide Shl, Low, Magnitude, RoundsTo, Format.InfExp, Format.Bias;
    if a < f.narrow.Infinity() {
      ExactRounds(f, a);
      RoundingUnique(f, Magnitude(f.wide.sig, x), r, a);
    } else {
      Words(f);
      OverflowCase(f, x);
      RoundingUnique(f, Magnitude(f.wide.sig, x), r, a);
    }
  }

  /** What is left of a NaN: the quiet bit is set, the rest of its payload stays. */
  lemma BackNaN(f: Formats, a: nat, x: nat)
    requires f.Truncatable() && f.narrow.Infinity() < a < Pow2(f.narrow.bits - 1) && ExtendsAbs(f, a, x)
    ensures x > f.wide.Infinity() && x < Pow2(f.wide.bits - 1)
    ensures (f.narrow.Infinity() + Pow2(f.narrow.sig - 1) + Shr(Low(x, f.wide.sig - 1), f.Dropped()) == a) <==> Bit(a, f.narrow.sig - 1)
  {
    hide Shl, Shr, Low, Pow2, Magnitude, RoundsTo, Format.InfExp, Format.Bias;
    var n, g, w := f.narrow.sig, f.Dropped(), f.wide.sig;
    SpecialExtends(f, a);
    var m := Low(a, n);
    ShlZero(g);
    ShlStrict(0, m, g);
    // the low bits of x are those of the shifted payload
    LowBound(a, n);
    ShlStrict(m, Pow2(n), g);
    ShlPow2(n, g);
    Join(Shl(m, g), f.wide.InfExp(), w);
    LowLow(x, w - 1, w);
    LowShl(m, g, n - 1);
    ShrShl(Low(m, n - 1), g);
    LowLow(a, n - 1, n);
    QuietBit(a, n);
  }

  lemma QuietBit(a: nat, n: nat)
    requires n > 0
    ensures Pow2(n - 1) + Low(a, n - 1) == Low(a, n) <==> Bit(a, n - 1)
  {
    LowSplit(a, n - 1, 1);
    OneShl(n - 1);
    ShlZero(n - 1);
    assert Low(Shr(a, n - 1), 1) == Shr(a, n - 1) % 2 + 2 * Low(Shr(a, n - 1) / 2, 0);
    hide Shl, Shr, Low;
    var q := Low(Shr(a, n - 1), 1);
    if q != 0 {
      assert q == 1;
    }
  }

  /** Truncating an extended number gives the number back; of the NaNs, exactly the quiet ones come
      back unchanged. */
  lemma RoundTrip(f: Formats, a: nat, x: nat, r: nat)
    requires f.Truncatable() && a < Pow2(f.narrow.bits)
    requires ExtendsTo(f, a, x) && TruncatesTo(f, x, r)
    ensures r == a <==> !IsNaN(f.narrow, a) || IsQuiet(f.narrow, a)
  {
    hide Shl, Shr, Low, Pow2, Magnitude, RoundsTo, ExtendsAbs, Format.InfExp, Format.Bias;
    var aAbs, xAbs := AbsOf(f.narrow, a), AbsOf(f.wide, x);
    Split(a, f.narrow.bits - 1);
    Split(r, f.narrow.bits - 1);
    LowBound(a, f.narrow.bits - 1);
    if IsNaN(f.narrow, a) {
      BackNaN(f, aAbs, xAbs);
      LowLow(x, f.wide.sig - 1, f.wide.bits - 1);
      BitOfAbs(a, f.narrow.sig - 1, f.narrow.bits - 1);
    } else {
      FiniteStays(f, aAbs, xAbs);
      BackFinite(f, aAbs, xAbs, AbsOf(f.narrow, r));
    }
  }

  lemma FiniteStays(f: Formats, a: nat, x: nat)
    requires f.Valid() && a <= f.narrow.Infinity() && ExtendsAbs(f, a, x)
    ensures x <= f.wide.Infinity()
  {
  }

  lemma BitOfAbs(a: nat, k: nat, n: nat)
    requires k < n
    ensures Bit(Low(a, n), k) <==> Bit(a, k)
  {
    ShrLow(a, k, n - k);
  }

  /** The parameters used for float and half. */
  lemma SingleAndHalf()
    ensures Formats(Format(32, 23), Format(16, 10)).Truncatable()
  {
    Pow2Words();
    assert Pow2(5) == 32;
  }
}
