/** Conversion of a signed 64-bit integer to binary32, on bits.

A finite binary32 is a sign, a biased exponent below 255 and a 23-bit fraction, as in section 3.4
of IEEE 754-2008.  `Value` counts it in units of 2^-149, the least subnormal, so that every finite
number and every integer is a whole count.
 */
module Float32 {
  import opened Powers

  type Int64 = x: int | -0x8000_0000_0000_0000 <= x < 0x8000_0000_0000_0000

  type Bits = x: int | 0 <= x < 0x1_0000_0000

  const HIDDEN: int := 0x80_0000

  function BitLength(m: nat): (n: nat)
    ensures m < Pow2(n)
    ensures m > 0 ==> n > 0 && Pow2(n - 1) <= m
  {
    if m == 0 then 0 else 1 + BitLength(m / 2)
  }

  // -------------------------------------------------------------------------
  // Binary32
  // -------------------------------------------------------------------------

  function Sign(bits: Bits): int {
    bits / 0x8000_0000
  }

  function Biased(bits: Bits): (e: nat)
    ensures e < 256
  {
    bits / HIDDEN % 256
  }

  function Fraction(bits: Bits): (f: nat)
    ensures f < HIDDEN
  {
    bits % HIDDEN
  }

  predicate IsFinite(bits: Bits) {
    Biased(bits) < 255
  }

  function Magnitude(biased: nat, fraction: nat): nat {
    if biased == 0 then fraction else (HIDDEN + fraction) * Pow2(biased - 1)
  }

  function Value(bits: Bits): int {
    var m: int := Magnitude(Biased(bits), Fraction(bits));
    if Sign(bits) == 1 then -m else m
  }

  /** The count of 2^-149 units in an integer. */
  function Exactly(value: int): int {
    value * Pow2(149)
  }

  function Distance(x: int, y: int): nat {
    if x < y then y - x else x - y
  }

  /** Round to nearest, ties to even, of section 4.3.1 of IEEE 754-2008: no finite number is nearer,
      and if another is as near then the delivered one has an even significand. */
  ghost predicate RoundsToNearestEven(value: int, bits: Bits) {
    && IsFinite(bits)
    && forall other: Bits :: IsFinite(other) ==>
      && Distance(Exactly(value), Value(bits)) <= Distance(Exactly(value), Value(other))
      && (Distance(Exactly(value), Value(bits)) == Distance(Exactly(value), Value(other)) && Value(other) != Value(bits)
          ==> Fraction(bits) % 2 == 0)
  }

  function Unsigned(value: Int64): (m: nat)
    ensures m <= 0x8000_0000_0000_0000
  {
    var v: int := value;
    if v < 0 then -v else v
  }

  // -------------------------------------------------------------------------
  // The conversion
  // -------------------------------------------------------------------------

  function RoundedQuotient(magnitude: nat, divisor: nat): nat
    requires divisor > 0
  {
    var quotient, remainder := magnitude / divisor, magnitude % divisor;
    if remainder * 2 > divisor || (remainder * 2 == divisor && quotient % 2 == 1) then quotient + 1 else quotient
  }

  /** The significand before any carry is taken out of it. */
  function Rounded(magnitude: nat, exponent: nat): nat {
    if exponent <= 23 then magnitude * Pow2(23 - exponent) else RoundedQuotient(magnitude, Pow2(exponent - 23))
  }

  function Assemble(sign: int, exponent: int, significand: int): Bits
    requires 0 <= sign <= 1 && 0 <= exponent + 127 < 256 && 0 <= significand
  {
    sign * 0x8000_0000 + (exponent + 127) * HIDDEN + significand % HIDDEN
  }

  /** A carry to 2^24 halves the significand and raises the exponent. */
  function Normalized(sign: int, exponent: int, significand: int): Bits
    requires 0 <= sign <= 1 && 0 <= exponent + 127 < 255 && 0 <= significand
  {
    if significand >= 2 * HIDDEN then Assemble(sign, exponent + 1, significand / 2)
    else Assemble(sign, exponent, significand)
  }

  function Int64ToFloat32(value: Int64): Bits {
    if value == 0 then 0
    else
      var sign := if value < 0 then 1 else 0;
      var magnitude := Unsigned(value);
      var exponent := BitLength(magnitude) - 1;
      ExponentBound(magnitude);
      Normalized(sign, exponent, Rounded(magnitude, exponent))
  }

  // -------------------------------------------------------------------------
  // Powers of two
  // -------------------------------------------------------------------------

  lemma Pow2Values()
    ensures Pow2(23) == HIDDEN
    ensures Pow2(64) == 0x1_0000_0000_0000_0000
  {
    hide Pow2;
    Pow2Zero();
    Pow2Step(1);
    Pow2Step(2);
    Pow2Step(3);
    Pow2Sum(3, 4);
    Pow2Sum(1, 3);
    Pow2Sum(4, 4);
    Pow2Sum(8, 8);
    Pow2Sum(16, 7);
    Pow2Sum(16, 16);
    Pow2Sum(32, 32);
  }

  lemma ExponentBound(magnitude: nat)
    requires 0 < magnitude <= 0x8000_0000_0000_0000
    ensures 0 < BitLength(magnitude) <= 64
  {
    Pow2Values();
    if BitLength(magnitude) > 64 {
      Pow2Grows(64, BitLength(magnitude) - 1);
    }
  }

  // -------------------------------------------------------------------------
  // Fields
  // -------------------------------------------------------------------------

  lemma FieldsOf(sign: int, exponent: int, significand: int)
    requires 0 <= sign <= 1 && 0 <= exponent + 127 < 256 && 0 <= significand
    ensures
      var bits := Assemble(sign, exponent, significand);
      Sign(bits) == sign && Biased(bits) == exponent + 127 && Fraction(bits) == significand % HIDDEN
  {
    var fraction := significand % HIDDEN;
    var upper := sign * 256 + exponent + 127;
    var bits := Assemble(sign, exponent, significand);
    assert bits == upper * HIDDEN + fraction;
    assert bits / HIDDEN == upper && bits % HIDDEN == fraction;
    assert upper % 256 == exponent + 127;
  }

  /** The count an assembled normal number stands for. */
  lemma AssembledValue(sign: int, exponent: nat, significand: int)
    requires 0 <= sign <= 1 && exponent < 128 && HIDDEN <= significand < 2 * HIDDEN
    ensures
      var bits := Assemble(sign, exponent, significand);
      var m := significand * Pow2(exponent + 126);
      && IsFinite(bits) && Fraction(bits) % 2 == significand % 2
      && Value(bits) == if sign == 1 then -m else m
  {
    hide Pow2;
    FieldsOf(sign, exponent, significand);
    assert significand % HIDDEN == significand - HIDDEN;
    assert significand % 2 == (significand - HIDDEN) % 2;
  }

  /** Carrying out of the significand does not change the count. */
  lemma NormalizedValue(sign: int, exponent: nat, significand: int)
    requires 0 <= sign <= 1 && exponent < 127 && HIDDEN <= significand <= 2 * HIDDEN
    ensures
      var bits := Normalized(sign, exponent, significand);
      var m := significand * Pow2(exponent + 126);
      && IsFinite(bits) && (significand % 2 == 0 ==> Fraction(bits) % 2 == 0)
      && Value(bits) == if sign == 1 then -m else m
  {
    hide Pow2, Sign, Biased, Fraction, Magnitude, Assemble, Value, IsFinite;
    if significand == 2 * HIDDEN {
      assert significand / 2 == HIDDEN && HIDDEN % 2 == 0;
      AssembledValue(sign, exponent + 1, HIDDEN);
      Pow2Step(exponent + 127);
      Associate(HIDDEN, 2, Pow2(exponent + 126));
    } else {
      AssembledValue(sign, exponent, significand);
    }
  }

  // -------------------------------------------------------------------------
  // Nearest
  // -------------------------------------------------------------------------

  /** No finite magnitude lies strictly between two neighbours of one binade. */
  lemma NoneBetween(biased: nat, fraction: nat, quotient: nat, position: nat)
    requires biased < 255 && fraction < HIDDEN && HIDDEN <= quotient
    ensures
      var m := Magnitude(biased, fraction);
      m <= quotient * Pow2(position) || (quotient + 1) * Pow2(position) <= m
  {
    hide Pow2;
    var m := Magnitude(biased, fraction);
    if biased == 0 {
      assert quotient * Pow2(position) >= quotient by { TimesAtLeast(quotient, Pow2(position)); }
    } else if biased - 1 < position {
      Pow2Grows(biased - 1, position - 1);
      assert Pow2(position) == 2 * Pow2(position - 1) by { Pow2Step(position); }
      Scaled(HIDDEN + fraction, 2 * HIDDEN, Pow2(biased - 1));
      Scaled2(2 * HIDDEN, Pow2(biased - 1), Pow2(position - 1));
      Scaled(HIDDEN, quotient, Pow2(position));
    } else {
      Pow2Sum(biased - 1 - position, position);
      var k := (HIDDEN + fraction) * Pow2(biased - 1 - position);
      assert m == k * Pow2(position) by { Associate(HIDDEN + fraction, Pow2(biased - 1 - position), Pow2(position)); }
      if k <= quotient {
        Scaled(k, quotient, Pow2(position));
      } else {
        Scaled(quotient + 1, k, Pow2(position));
      }
    }
  }

  lemma TimesAtLeast(a: nat, p: nat)
    requires p >= 1
    ensures a * p >= a
  {
  }

  lemma Scaled(a: int, b: int, p: nat)
    requires a <= b
    ensures a * p <= b * p
  {
  }

  lemma Scaled2(a: nat, p: int, q: int)
    requires p <= q
    ensures a * p <= a * q
  {
  }

  lemma Associate(a: int, b: int, c: int)
    ensures a * (b * c) == a * b * c
  {
  }

  /** Of two neighbours low and low + p around low + r, the rounded one is nearest to it among all
      numbers not strictly between them; an equally near other number only rivals an even one. */
  lemma NeighbourIsNearest(quotient: nat, r: nat, p: nat, other: int)
    requires r < p
    requires other <= quotient * p || (quotient + 1) * p <= other
    ensures
      var exact := quotient * p + r;
      var chosen := if 2 * r > p || (2 * r == p && quotient % 2 == 1) then quotient + 1 else quotient;
      && Distance(exact, chosen * p) <= Distance(exact, other)
      && (Distance(exact, chosen * p) == Distance(exact, other) && other != chosen * p ==> chosen % 2 == 0)
  {
    assert (quotient + 1) * p == quotient * p + p;
  }

  lemma NoValueBetween(bits: Bits, quotient: nat, position: nat)
    requires IsFinite(bits) && HIDDEN <= quotient
    ensures Value(bits) <= quotient * Pow2(position) || (quotient + 1) * Pow2(position) <= Value(bits)
  {
    hide Pow2, Sign, Biased, Fraction, Magnitude;
    NoneBetween(Biased(bits), Fraction(bits), quotient, position);
    TimesAtLeast(quotient, Pow2(position));
  }

  /** A magnitude beyond 24 bits, as a quotient and a remainder of its last kept position. */
  lemma PositionOf(magnitude: nat, exponent: nat)
    requires exponent > 23
    ensures
      var divisor, p := Pow2(exponent - 23), Pow2(exponent + 126);
      var quotient, remainder := magnitude / divisor, magnitude % divisor;
      var r := remainder * Pow2(149);
      && Exactly(magnitude) == quotient * p + r && r < p
      && (2 * remainder > divisor <==> 2 * r > p) && (2 * remainder == divisor <==> 2 * r == p)
  {
    hide Pow2;
    var divisor, unit := Pow2(exponent - 23), Pow2(149);
    var quotient, remainder := magnitude / divisor, magnitude % divisor;
    Pow2Sum(exponent - 23, 149);
    Distribute(quotient, divisor, remainder, unit);
    RemainderScales(remainder, divisor, unit);
  }

  /** The rounded significand at its position, against every finite number. */
  lemma RoundedIsNearest(magnitude: nat, exponent: nat, other: Bits)
    requires Pow2(exponent) <= magnitude < Pow2(exponent + 1) && IsFinite(other)
    ensures
      var m := Rounded(magnitude, exponent) * Pow2(exponent + 126);
      && Distance(Exactly(magnitude), m) <= Distance(Exactly(magnitude), Value(other))
      && (Distance(Exactly(magnitude), m) == Distance(Exactly(magnitude), Value(other)) && Value(other) != m
          ==> Rounded(magnitude, exponent) % 2 == 0)
  {
    hide Pow2, Value, IsFinite, Exactly;
    if exponent <= 23 {
      ShortIsExact(magnitude, exponent);
    } else {
      var divisor, p := Pow2(exponent - 23), Pow2(exponent + 126);
      PositionOf(magnitude, exponent);
      QuotientHasHiddenBit(magnitude, exponent);
      NoValueBetween(other, magnitude / divisor, exponent + 126);
      NeighbourIsNearest(magnitude / divisor, magnitude % divisor * Pow2(149), p, Value(other));
    }
  }

  lemma ShortIsExact(magnitude: nat, exponent: nat)
    requires exponent <= 23
    ensures Rounded(magnitude, exponent) * Pow2(exponent + 126) == Exactly(magnitude)
  {
    hide Pow2;
    Pow2Sum(23 - exponent, exponent + 126);
    Associate(magnitude, Pow2(23 - exponent), Pow2(exponent + 126));
  }

  lemma ExactlyNegated(x: int)
    ensures Exactly(-x) == -Exactly(x)
  {
  }

  lemma Distribute(q: int, d: int, r: int, u: int)
    ensures (q * d + r) * u == q * (d * u) + r * u
  {
  }

  lemma RemainderScales(r: nat, d: nat, u: nat)
    requires r < d && u >= 1
    ensures r * u < d * u
    ensures 2 * r > d <==> 2 * (r * u) > d * u
    ensures 2 * r == d <==> 2 * (r * u) == d * u
  {
    var x := 2 * r - d;
    assert 2 * (r * u) - d * u == x * u;
    if x > 0 {
      TimesAtLeast(x, u);
    } else if x < 0 {
      TimesAtLeast(-x, u);
      assert -x * u == -(x * u);
    }
    TimesAtLeast(d - r, u);
    assert (d - r) * u == d * u - r * u;
  }

  lemma QuotientHasHiddenBit(magnitude: nat, exponent: nat)
    requires exponent > 23 && Pow2(exponent) <= magnitude < Pow2(exponent + 1)
    ensures HIDDEN <= magnitude / Pow2(exponent - 23) < 2 * HIDDEN
  {
    hide Pow2;
    var d := Pow2(exponent - 23);
    var q := magnitude / d;
    Pow2Values();
    Pow2Sum(23, exponent - 23);
    Pow2Step(exponent + 1);
    assert q * d <= magnitude < (q + 1) * d by {
      assert magnitude == q * d + magnitude % d;
      assert (q + 1) * d == q * d + d;
    }
    if q < HIDDEN {
      Scaled(q + 1, HIDDEN, d);
    } else if q >= 2 * HIDDEN {
      Scaled(2 * HIDDEN, q, d);
      Associate(2, HIDDEN, d);
    }
  }

  /** The rounded significand has its hidden bit; at most it carries to exactly 2^24. */
  lemma RoundedRange(magnitude: nat, exponent: nat)
    requires Pow2(exponent) <= magnitude < Pow2(exponent + 1)
    ensures HIDDEN <= Rounded(magnitude, exponent) <= 2 * HIDDEN
  {
    hide Pow2;
    Pow2Values();
    if exponent <= 23 {
      Pow2Sum(exponent, 23 - exponent);
      Pow2Step(exponent + 1);
      Scaled(Pow2(exponent), magnitude, Pow2(23 - exponent));
      Scaled(magnitude, 2 * Pow2(exponent), Pow2(23 - exponent));
      Associate(2, Pow2(exponent), Pow2(23 - exponent));
    } else {
      QuotientHasHiddenBit(magnitude, exponent);
    }
  }

  /** What the conversion delivers: the rounded significand, with the sign of the integer. */
  lemma ConversionValue(value: Int64)
    requires value != 0
    ensures
      var magnitude := Unsigned(value);
      var exponent := BitLength(magnitude) - 1;
      var bits := Int64ToFloat32(value);
      var m := Rounded(magnitude, exponent) * Pow2(exponent + 126);
      && 0 <= exponent && Pow2(exponent) <= magnitude < Pow2(exponent + 1)
      && IsFinite(bits) && Value(bits) == (if value < 0 then -m else m)
      && (Rounded(magnitude, exponent) % 2 == 0 ==> Fraction(bits) % 2 == 0)
  {
    hide Pow2, Fraction, Rounded, Value, IsFinite, Normalized, BitLength;
    var magnitude := Unsigned(value);
    var exponent := BitLength(magnitude) - 1;
    ExponentBound(magnitude);
    RoundedRange(magnitude, exponent);
    NormalizedValue(if value < 0 then 1 else 0, exponent, Rounded(magnitude, exponent));
  }

  lemma MirrorValue(bits: Bits) returns (mirror: Bits)
    requires IsFinite(bits)
    ensures IsFinite(mirror) && Value(mirror) == -Value(bits)
  {
    var sign, exponent := 1 - Sign(bits), Biased(bits) - 127;
    FieldsOf(sign, exponent, Fraction(bits));
    mirror := Assemble(sign, exponent, Fraction(bits));
  }

  /** Every int64 converts to the nearest binary32, ties to even, carry out of the significand
      included. */
  lemma ConversionRounds(value: Int64)
    ensures RoundsToNearestEven(value, Int64ToFloat32(value))
  {
    hide Pow2, Sign, Biased, Fraction, Magnitude, Rounded, Value, IsFinite, Int64ToFloat32;
    var bits := Int64ToFloat32(value);
    if value == 0 {
      ZeroConverts();
    } else {
      ConversionValue(value);
      forall other: Bits | IsFinite(other)
        ensures Distance(Exactly(value), Value(bits)) <= Distance(Exactly(value), Value(other))
        ensures Distance(Exactly(value), Value(bits)) == Distance(Exactly(value), Value(other)) && Value(other) != Value(bits)
          ==> Fraction(bits) % 2 == 0
      {
        if value > 0 {
          RoundedIsNearest(Unsigned(value), BitLength(Unsigned(value)) - 1, other);
        } else {
          var mirror := MirrorValue(other);
          RoundedIsNearest(Unsigned(value), BitLength(Unsigned(value)) - 1, mirror);
          assert Exactly(Unsigned(value)) == -Exactly(value) by { ExactlyNegated(value); }
        }
      }
    }
  }

  lemma ZeroConverts()
    ensures Int64ToFloat32(0) == 0 && IsFinite(0) && Value(0) == 0 == Exactly(0) && Fraction(0) == 0
  {
  }

  /** The conversion is monotone: nearest neighbours cannot cross. */
  lemma ConversionMonotone(v: Int64, w: Int64)
    requires v <= w
    ensures Value(Int64ToFloat32(v)) <= Value(Int64ToFloat32(w))
  {
    hide Pow2, Value, IsFinite, Int64ToFloat32, Fraction;
    ConversionRounds(v);
    ConversionRounds(w);
    var x, y := Int64ToFloat32(v), Int64ToFloat32(w);
    assert Distance(Exactly(v), Value(x)) <= Distance(Exactly(v), Value(y));
    assert Distance(Exactly(w), Value(y)) <= Distance(Exactly(w), Value(x));
    if v < w {
      Scaled(v + 1, w, Pow2(149));
      assert (v + 1) * Pow2(149) == Exactly(v) + Pow2(149);
    }
  }

  /** The integer has at most 24 significant bits: it is short, or its low bits are zero. */
  predicate FitsSignificand(v: Int64) {
    v == 0 ||
    var exponent := BitLength(Unsigned(v)) - 1;
    exponent <= 23 || Unsigned(v) % Pow2(exponent - 23) == 0
  }

  /** Rounding to 24 bits is exact just when the dropped bits are zero. */
  lemma ExactIffNothingDropped(magnitude: nat, exponent: nat)
    requires exponent > 23
    ensures Rounded(magnitude, exponent) * Pow2(exponent + 126) == Exactly(magnitude) <==>
      magnitude % Pow2(exponent - 23) == 0
  {
    hide Pow2, Exactly;
    PositionOf(magnitude, exponent);
    var divisor, p := Pow2(exponent - 23), Pow2(exponent + 126);
    var quotient, remainder := magnitude / divisor, magnitude % divisor;
    assert (quotient + 1) * p == quotient * p + p;
    if remainder > 0 {
      TimesAtLeast(Pow2(149), remainder);
      assert remainder * Pow2(149) == Pow2(149) * remainder;
    }
  }

  lemma ExactIffFits(v: Int64)
    ensures Value(Int64ToFloat32(v)) == Exactly(v) <==> FitsSignificand(v)
  {
    hide Pow2, Value, IsFinite, Int64ToFloat32, Fraction, Rounded, Exactly, BitLength;
    if v == 0 {
      ZeroConverts();
    } else {
      ConversionValue(v);
      var exponent := BitLength(Unsigned(v)) - 1;
      ExactlyNegated(v);
      if exponent > 23 {
        ExactIffNothingDropped(Unsigned(v), exponent);
      } else {
        ShortIsExact(Unsigned(v), exponent);
      }
    }
  }

  /** It is exact just when the integer has at most 24 significant bits, in particular up to 2^24,
      and whenever some finite binary32 is the integer. */
  lemma ConversionExact(v: Int64)
    ensures Value(Int64ToFloat32(v)) == Exactly(v) <==> FitsSignificand(v)
    ensures Value(Int64ToFloat32(v)) == Exactly(v) <==> exists b: Bits :: IsFinite(b) && Value(b) == Exactly(v)
    ensures -0x100_0000 <= v <= 0x100_0000 ==> Value(Int64ToFloat32(v)) == Exactly(v)
  {
    hide Pow2, Value, IsFinite, Int64ToFloat32, Fraction, Exactly, BitLength, Rounded, FitsSignificand;
    ExactIffFits(v);
    ConversionRounds(v);
    var bits := Int64ToFloat32(v);
    if b: Bits :| IsFinite(b) && Value(b) == Exactly(v) {
      assert Distance(Exactly(v), Value(bits)) <= Distance(Exactly(v), Value(b));
    }
    if -0x100_0000 <= v <= 0x100_0000 {
      SmallIntegersExact(v);
    }
  }

  /** 2^24 is the one integer of that range with 25 bits; the dropped bit is zero. */
  lemma TwoTo24IsExact(exponent: nat)
    requires exponent > 23 && Pow2(exponent) <= 2 * HIDDEN
    ensures Rounded(2 * HIDDEN, exponent) * Pow2(exponent + 126) == Exactly(2 * HIDDEN)
  {
    hide Pow2;
    Pow2Values();
    Pow2Step(24);
    Pow2Step(25);
    if exponent > 24 {
      Pow2Grows(25, exponent);
    }
    Pow2Step(1);
    Pow2Zero();
    Pow2Step(150);
    Associate(HIDDEN, 2, Pow2(149));
  }

  lemma SmallIntegersExact(v: Int64)
    requires -0x100_0000 <= v <= 0x100_0000
    ensures Value(Int64ToFloat32(v)) == Exactly(v)
  {
    hide Pow2, Value, IsFinite, Int64ToFloat32, Fraction, Rounded, Exactly;
    if v == 0 {
      ZeroConverts();
    } else {
      ConversionValue(v);
      var magnitude := Unsigned(v);
      var exponent := BitLength(magnitude) - 1;
      if exponent > 23 {
        Pow2Grows(24, exponent);
        Pow2Values();
        Pow2Step(24);
        TwoTo24IsExact(exponent);
      } else {
        ShortIsExact(magnitude, exponent);
      }
      ExactlyNegated(v);
    }
  }
}
