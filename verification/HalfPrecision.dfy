/** The conversions between float and half in plain numbers: sign 1 bit, exponent 8 and 5 bits with the
    biases 127 and 15, fraction 23 and 10 bits. */
module HalfPrecision {
  import opened Bits
  import opened Fp16

  function FloatHalf(): (f: Formats)
    ensures f.Truncatable()
  {
    SingleAndHalf();
    Formats(Format(32, 23), Format(16, 10))
  }

  lemma Sizes()
    ensures var f := FloatHalf();
      && f.Rebias() == 112 && f.Dropped() == 13 && f.narrow.InfExp() == 31
      && f.narrow.Infinity() == 0x7c00 && f.wide.Infinity() == 0x7f80_0000
  {
    Powers();
    ShiftMeaning(31, 10);
    ShiftMeaning(255, 23);
  }

  lemma Powers()
    ensures Pow2(5) == 32 && Pow2(8) == 256 && Pow2(10) == 0x400 && Pow2(12) == 0x1000 && Pow2(13) == 0x2000
    ensures Pow2(15) == 0x8000 && Pow2(16) == 0x1_0000 && Pow2(23) == 0x80_0000
    ensures Pow2(31) == 0x8000_0000 && Pow2(32) == 0x1_0000_0000
  {
    Pow2Words();
    assert Pow2(5) == 32 && Pow2(10) == 0x400 && Pow2(12) == 0x1000 && Pow2(13) == 0x2000 && Pow2(15) == 0x8000;
    assert Pow2(24) == 2 * Pow2(23) && Pow2(32) == 2 * Pow2(31);
  }

  /** x / d rounded to the nearest number, to the even one of two. */
  function NearestEven(x: nat, d: nat): (k: nat)
    requires d > 0
  {
    var q, r := x / d, x % d;
    if 2 * r < d || (2 * r == d && q % 2 == 0) then q else q + 1
  }

  // ----- float to half -----

  /** Results between the smallest normal half and the largest: the fraction loses its 13 last bits,
      rounded, and the exponent its excess of 112. */
  lemma NormalHalf(a: nat, r: nat)
    requires 0x3880_0000 <= a < 0x4780_0000 && RoundsTo(FloatHalf(), Magnitude(23, a), r)
    ensures r + 0x1_c000 == NearestEven(a, 0x2000)
  {
    hide Shl, Shr, Low, Pow2, Magnitude, RoundsTo, Format.InfExp, Format.Bias, Format.Infinity;
    var f := FloatHalf();
    Sizes();
    Powers();
    ShiftMeaning(113, 23);
    ShiftMeaning(143, 23);
    ShiftMeaning(112, 10);
    ShiftMeaning(a, 13);
    ShiftMeaning(a, 23);
    NormalBetween(f, a);
    var q := a / 0x2000 - 0x1_c000;
    RoundedIsNearest(f, Magnitude(23, a), q, a % 0x2000, 13, a / 0x80_0000 - 1, a % 0x2000, 0x1000);
    RoundedSmall(q, a % 0x2000);
    RoundingUnique(f, Magnitude(23, a), r, Rounded(q, a % 0x2000, 0x1000, 16));
  }

  lemma RoundedSmall(q: nat, rest: nat)
    requires q < 0x7c00 && rest < 0x2000
    ensures Rounded(q, rest, 0x1000, 16) == NearestEven(0x2000 * q + rest, 0x2000)
  {
    Powers();
    LowSmall(q + 1, 16);
    LowSmall(q, 16);
  }

  /** From 65520 on the result is infinity; NaNs are apart. */
  lemma LargeHalf(a: nat, r: nat)
    requires 0x4780_0000 <= a && RoundsTo(FloatHalf(), Magnitude(23, a), r)
    ensures r == 0x7c00
  {
    hide Shl, Shr, Low, Pow2, Magnitude, RoundsTo, Format.InfExp, Format.Bias, Format.Infinity;
    var f := FloatHalf();
    Sizes();
    Powers();
    ShiftMeaning(143, 23);
    OverflowCase(f, a);
    RoundingUnique(f, Magnitude(23, a), r, 0x7c00);
  }

  /** Results below the smallest normal half are multiples of 2^-24: the significand loses one bit more
      for each step of the exponent. */
  lemma SubnormalHalf(a: nat, r: nat)
    requires 0x80_0000 <= a < 0x3880_0000 && RoundsTo(FloatHalf(), Magnitude(23, a), r)
    ensures r == NearestEven(0x80_0000 + a % 0x80_0000, Pow2(126 - a / 0x80_0000))
  {
    hide Shl, Shr, Low, Magnitude, RoundsTo, Format.InfExp, Format.Bias, Format.Infinity;
    var f := FloatHalf();
    Sizes();
    Powers();
    ShiftMeaning(a, 23);
    var e, s := a / 0x80_0000, 0x80_0000 + a % 0x80_0000;
    var c := 126 - e;
    SubnormalBetween(f, a, 113 - e);
    ShiftMeaning(s, c);
    LowBound(s, c);
    var q := s / Pow2(c);
    HalfPower(c);
    RoundedIsNearest(f, Magnitude(23, a), q, s % Pow2(c), c, e - 1, s % Pow2(c), Pow2(c - 1));
    LowSmall(q + 1, 16);
    LowSmall(q, 16);
    RoundingUnique(f, Magnitude(23, a), r, Rounded(q, s % Pow2(c), Pow2(c - 1), 16));
  }

  lemma HalfPower(c: nat)
    requires c > 0
    ensures Pow2(c) == 2 * Pow2(c - 1)
  {
  }

  lemma Parts(sign: nat, a: nat)
    requires sign < 2 && a < 0x8000_0000
    ensures var x := 0x8000_0000 * sign + a;
      x < Pow2(32) && AbsOf(Format(32, 23), x) == a && SignOf(Format(32, 23), x) == sign
  {
    hide Shl, Shr, Low, Pow2;
    Powers();
    ShiftMeaning(0x8000_0000 * sign + a, 31);
  }

  lemma HalfParts(r: nat)
    requires r < 0x1_0000
    ensures r == 0x8000 * SignOf(Format(16, 10), r) + AbsOf(Format(16, 10), r)
  {
    hide Shl, Shr, Low, Pow2;
    Powers();
    ShiftMeaning(r, 15);
  }

  /** Every float but the subnormal ones, which are far below the smallest half. */
  lemma FloatToHalf(sign: nat, a: nat, r: nat)
    requires sign < 2 && a < 0x8000_0000 && TruncatesTo(FloatHalf(), 0x8000_0000 * sign + a, r)
    ensures 0x80_0000 <= a < 0x3880_0000 ==>
      r == 0x8000 * sign + NearestEven(0x80_0000 + a % 0x80_0000, Pow2(126 - a / 0x80_0000))
    ensures 0x3880_0000 <= a < 0x4780_0000 ==> r + 0x1_c000 == 0x8000 * sign + NearestEven(a, 0x2000)
    ensures 0x4780_0000 <= a <= 0x7f80_0000 ==> r == 0x8000 * sign + 0x7c00
    ensures a > 0x7f80_0000 ==> r == 0x8000 * sign + 0x7e00 + a % 0x40_0000 / 0x2000
  {
    hide Shl, Shr, Low, Pow2, Magnitude, RoundsTo, Format.InfExp, Format.Bias, Format.Infinity, NearestEven;
    var f := FloatHalf();
    Sizes();
    Powers();
    Parts(sign, a);
    HalfParts(r);
    if a > 0x7f80_0000 {
      PayloadPart(sign, a);
    } else if a >= 0x4780_0000 {
      LargeHalf(a, AbsOf(f.narrow, r));
    } else if a >= 0x3880_0000 {
      NormalHalf(a, AbsOf(f.narrow, r));
    } else if a >= 0x80_0000 {
      SubnormalHalf(a, AbsOf(f.narrow, r));
    }
  }

  /** The conversion, in these terms. */
  method TruncateFloat(sign: nat, a: nat) returns (r: nat)
    requires sign < 2 && a < 0x8000_0000
    ensures 0x80_0000 <= a < 0x3880_0000 ==>
      r == 0x8000 * sign + NearestEven(0x80_0000 + a % 0x80_0000, Pow2(126 - a / 0x80_0000))
    ensures 0x3880_0000 <= a < 0x4780_0000 ==> r + 0x1_c000 == 0x8000 * sign + NearestEven(a, 0x2000)
    ensures 0x4780_0000 <= a <= 0x7f80_0000 ==> r == 0x8000 * sign + 0x7c00
    ensures a > 0x7f80_0000 ==> r == 0x8000 * sign + 0x7e00 + a % 0x40_0000 / 0x2000
  {
    hide TruncatesTo, Pow2, NearestEven;
    Parts(sign, a);
    r := TruncXfYf2(FloatHalf(), 0x8000_0000 * sign + a);
    FloatToHalf(sign, a, r);
  }

  lemma PayloadPart(sign: nat, a: nat)
    requires sign < 2 && a < 0x8000_0000
    ensures Shr(Low(0x8000_0000 * sign + a, 22), 13) == a % 0x40_0000 / 0x2000 && Pow2(9) == 0x200
  {
    hide Shl, Shr, Low, Pow2;
    Powers();
    NinePowers();
    ShiftMeaning(0x8000_0000 * sign + a, 22);
    ShiftMeaning(a % 0x40_0000, 13);
  }

  lemma NinePowers()
    ensures Pow2(9) == 0x200 && Pow2(22) == 0x40_0000
  {
    Powers();
    assert Pow2(23) == 2 * Pow2(22);
  }

  /** One and its ties, the largest half and what overflows, minus two, the smallest half and what rounds to
      it and to zero, and a NaN. */
  lemma KnownHalves(a: nat, r: nat)
    requires a < 0x1_0000_0000 && TruncatesTo(FloatHalf(), a, r)
    ensures a == 0x3f80_0000 || a == 0x3f80_1000 ==> r == 0x3c00
    ensures (a == 0x3f80_1001 ==> r == 0x3c01) && (a == 0x3f80_3000 ==> r == 0x3c02)
    ensures (a == 0x477f_efff ==> r == 0x7bff) && (a == 0x477f_f000 ==> r == 0x7c00) && (a == 0xc000_0000 ==> r == 0xc000)
    ensures a == 0x3380_0000 || a == 0x3300_0001 ==> r == 1
    ensures (a == 0x3300_0000 ==> r == 0) && (a == 0x7fc0_0000 ==> r == 0x7e00)
  {
    hide TruncatesTo, Pow2;
    FloatToHalf(a / 0x8000_0000, a % 0x8000_0000, r);
    Powers();
    assert Pow2(24) == 0x100_0000 by {
      Pow2Words();
    }
  }

  // ----- half to float -----

  lemma SameMagnitude(sig: nat, r: nat, r': nat)
    requires Magnitude(sig, r) == Magnitude(sig, r')
    ensures r == r'
  {
    hide Magnitude;
    if r < r' {
      MagnitudeMono(sig, r, r');
    } else if r' < r {
      MagnitudeMono(sig, r', r);
    }
  }

  /** Normal halves get their exponent's excess and 13 zeros; infinity and NaNs keep their fraction. */
  lemma NormalFloat(a: nat, x: nat)
    requires 0x400 <= a < 0x8000 && ExtendsAbs(FloatHalf(), a, x)
    ensures x == if a < 0x7c00 then 0x2000 * a + 0x3800_0000 else 0x2000 * (a - 0x7c00) + 0x7f80_0000
  {
    hide Shl, Shr, Low, Pow2, Magnitude, Format.InfExp, Format.Bias, Format.Infinity;
    var f := FloatHalf();
    Sizes();
    Powers();
    ShiftMeaning(a, 13);
    ShiftMeaning(112, 23);
    ShiftMeaning(a, 10);
    ShiftMeaning(a % 0x400, 13);
    if a < 0x7c00 {
      NormalExtends(f, a);
      SameMagnitude(23, x, 0x2000 * a + 0x3800_0000);
    }
  }

  /** A subnormal half of k + 1 significant bits becomes a normal float. */
  lemma SubnormalFloat(a: nat, k: nat, x: nat)
    requires k < 10 && Pow2(k) <= a < 2 * Pow2(k) && ExtendsAbs(FloatHalf(), a, x)
    ensures x == 0x80_0000 * (103 + k) + (Pow2(23 - k) * a - 0x80_0000)
  {
    hide Shl, Shr, Low, Magnitude, Format.InfExp, Format.Bias, Format.Infinity;
    var f := FloatHalf();
    Sizes();
    Powers();
    Pow2Mono(k + 1, 10);
    LengthIs(a, k);
    SubnormalExtends(f, a, 10 - k);
    ShiftMeaning(a, 23 - k);
    ShiftMeaning(103 + k, 23);
    SameMagnitude(23, x, Shl(a, 23 - k) - Pow2(23) + Shl(103 + k, 23));
  }

  lemma LengthIs(a: nat, k: nat)
    requires Pow2(k) <= a < 2 * Pow2(k)
    ensures Length(a) == k + 1
  {
    LengthBounds(a);
    LengthBelow(a, k + 1);
    if Length(a) <= k {
      Pow2Mono(Length(a), k);
    }
  }

  lemma FloatParts(r: nat)
    requires r < Pow2(32)
    ensures r == 0x8000_0000 * SignOf(Format(32, 23), r) + AbsOf(Format(32, 23), r)
  {
    hide Shl, Shr, Low, Pow2;
    Powers();
    ShiftMeaning(r, 31);
  }

  lemma HalfFields(sign: nat, a: nat)
    requires sign < 2 && a < 0x8000
    ensures var x := 0x8000 * sign + a;
      x < Pow2(16) && AbsOf(Format(16, 10), x) == a && SignOf(Format(16, 10), x) == sign
  {
    hide Shl, Shr, Low, Pow2;
    Powers();
    ShiftMeaning(0x8000 * sign + a, 15);
  }

  /** Every half but zero. */
  method ExtendHalf(sign: nat, a: nat, ghost k: nat) returns (r: nat)
    requires sign < 2 && 0 < a < 0x8000
    ensures a < 0x400 && k < 10 && Pow2(k) <= a < 2 * Pow2(k) ==>
      r == 0x8000_0000 * sign + 0x80_0000 * (103 + k) + (Pow2(23 - k) * a - 0x80_0000)
    ensures 0x400 <= a < 0x7c00 ==> r == 0x8000_0000 * sign + 0x2000 * a + 0x3800_0000
    ensures a >= 0x7c00 ==> r == 0x8000_0000 * sign + 0x2000 * (a - 0x7c00) + 0x7f80_0000
  {
    hide Shl, Shr, Low, Pow2, Magnitude, ExtendsAbs, Format.InfExp, Format.Bias, Format.Infinity;
    var f := FloatHalf();
    HalfFields(sign, a);
    r := ExtendXfYf2(f, 0x8000 * sign + a);
    FloatParts(r);
    if a >= 0x400 {
      NormalFloat(a, AbsOf(f.wide, r));
    } else if k < 10 && Pow2(k) <= a < 2 * Pow2(k) {
      SubnormalFloat(a, k, AbsOf(f.wide, r));
    }
  }
}
