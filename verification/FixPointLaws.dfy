/** Laws of the fixed-point number: order, round trip, error bounds, monotonicity.

Every law is stated on denotations, so it holds for all qwords of both modes.  The bit-level
definitions are hidden here: what follows needs only the contracts of `FixPoint`.
 */
module FixPointLaws {
  import opened FixPoint

  /** One, as a count of 2^-26. */
  const UNIT: int := 0x400_0000

  predicate Fits(c: int) {
    INT64_MIN <= c <= INT64_MAX
  }

  // -------------------------------------------------------------------------
  // Order
  // -------------------------------------------------------------------------

  /** `Less` is a strict weak order across both modes, with `Equal` as its indifference. */
  lemma StrictWeakOrder(a: Raw, b: Raw, c: Raw)
    ensures !Less(a, a)
    ensures Less(a, b) && Less(b, c) ==> Less(a, c)
    ensures Equal(a, b) && Equal(b, c) ==> Equal(a, c)
    ensures Equal(a, b) <==> !Less(a, b) && !Less(b, a)
    ensures Less(a, b) && Equal(b, c) ==> Less(a, c)
    ensures Equal(a, b) && Less(b, c) ==> Less(a, c)
  {
    hide Compare, Denote;
  }

  /** Exactly one sign holds, and each agrees with the comparison to the bridge's zero. */
  lemma SignTrichotomy(a: Raw)
    ensures IsNegative(a) <==> Less(a, FromInt32(0))
    ensures IsZero(a) <==> Equal(a, FromInt32(0))
    ensures IsPositive(a) <==> Greater(a, FromInt32(0))
    ensures IsNegative(a) ==> !IsZero(a) && !IsPositive(a)
    ensures IsZero(a) ==> !IsPositive(a)
    ensures IsNegative(a) || IsZero(a) || IsPositive(a)
  {
    hide Compare, Denote, FromInt32, IsNegative, IsZero, IsPositive;
  }

  /** The int32 bridge embeds the order of the integers, across its own mode switch. */
  lemma FromInt32Embeds(m: Int32, n: Int32)
    ensures Less(FromInt32(m), FromInt32(n)) <==> m < n
    ensures Equal(FromInt32(m), FromInt32(n)) <==> m == n
  {
    hide Compare, Denote, FromInt32;
  }

  lemma DecodeMonotone(a: Raw, b: Raw)
    ensures Denote(a) <= Denote(b) ==> Decode(a) <= Decode(b)
    ensures OnGrid(a) ==> Denote(a) == 128 * Decode(a) && Decode(a) % 2 == 0
  {
    hide Denote, Decode, OnGrid;
    if OnGrid(a) {
      assert Denote(a) == 256 * (Denote(a) / 256);
    }
  }

  /** On the grid, comparing denotations is comparing common values. */
  lemma GridOrder(a: Raw, b: Raw)
    requires OnGrid(a) && OnGrid(b)
    ensures Denote(a) < Denote(b) <==> Decode(a) < Decode(b)
    ensures Denote(a) == Denote(b) <==> Decode(a) == Decode(b)
  {
    hide Denote, Decode, OnGrid;
    DecodeMonotone(a, b);
    DecodeMonotone(b, a);
  }

  // -------------------------------------------------------------------------
  // Round trip
  // -------------------------------------------------------------------------

  ghost predicate DropsToStandard(c: int) {
    c % 0x400_0000 == 1 && -0x4000_0000 < c / 0x400_0000 < 0x4000_0000
  }

  /** Re-encoding a decoded result keeps its value always, and its bits exactly when rounding the
      clamped value down to even does not move it onto an integer small enough for STANDARD. */
  lemma ReencodeKeepsValue(c: int)
    ensures Equal(Encode(Decode(Encode(c))), Encode(c))
    ensures Encode(Decode(Encode(c))) == Encode(c) <==> !DropsToStandard(Clamp(c))
  {
    hide Encode, Decode, Denote, Compare, EncodeStandard, EncodeExtended;
    ReencodeKeepsDenotation(c);
    var k := Clamp(c);
    var e := FloorEven(k);
    EncodingMode(c);
    EncodingMode(e);
    if k != e {
      OddResidue(k);
      SameExtended(k);
    } else {
      EvenResidue(k);
    }
  }

  /** Which of the two encodings a value gets. */
  lemma EncodingMode(c: int)
    ensures var k := Clamp(c);
      Encode(c) == if k % 0x400_0000 == 0 && -0x4000_0000 < k / 0x400_0000 < 0x4000_0000 then EncodeStandard(k) else EncodeExtended(k)
    ensures var k := Clamp(c);
      k % 0x400_0000 == 0 && -0x4000_0000 < k / 0x400_0000 < 0x4000_0000 ==> Encode(c) % 2 == 0
    ensures var k := Clamp(c);
      !(k % 0x400_0000 == 0 && -0x4000_0000 < k / 0x400_0000 < 0x4000_0000) ==> Encode(c) % 2 == 1
    ensures Clamp(FloorEven(Clamp(c))) == FloorEven(Clamp(c))
  {
    hide Denote, Decode, OnGrid;
  }

  lemma SameExtended(k: int)
    requires INT64_MIN <= k <= INT64_MAX
    ensures EncodeExtended(k) == EncodeExtended(FloorEven(k))
  {
  }

  lemma EvenResidue(k: int)
    requires k % 2 == 0
    ensures k % 0x400_0000 != 1
  {
    assert k == 2 * (0x200_0000 * (k / 0x400_0000)) + k % 0x400_0000;
  }

  lemma ReencodeKeepsDenotation(c: int)
    ensures Denote(Encode(Decode(Encode(c)))) == Denote(Encode(c))
  {
    hide Encode, Decode, Denote;
  }

  /** An odd value is no multiple of 2^26, and the even value below it is one just when the
      residue was one. */
  lemma OddResidue(k: int)
    requires k % 2 == 1
    ensures k % 0x400_0000 != 0
    ensures (k - 1) % 0x400_0000 == 0 <==> k % 0x400_0000 == 1
    ensures (k - 1) / 0x400_0000 == k / 0x400_0000
  {
    var q, r := k / 0x400_0000, k % 0x400_0000;
    assert k == 0x400_0000 * q + r;
    assert k == 2 * (0x200_0000 * q) + r;
    assert r % 2 == 1;
    QuotientUnique(k - 1, q, r - 1);
  }

  lemma QuotientUnique(x: int, q: int, r: int)
    requires x == 0x400_0000 * q + r && 0 <= r < 0x400_0000
    ensures x / 0x400_0000 == q && x % 0x400_0000 == r
  {
  }

  // -------------------------------------------------------------------------
  // Error bounds
  // -------------------------------------------------------------------------

  /** Absent saturation a sum loses less than three units of 2^-26, and never gains. */
  lemma AddError(a: Raw, b: Raw)
    requires INT64_MIN <= Decode(a) + Decode(b) <= INT64_MAX
    ensures 0 <= Denote(a) + Denote(b) - Denote(Add(a, b)) < 3 * 128
  {
    hide Denote, Decode, Encode;
  }

  /** Absent saturation a difference is off by more than -1 and less than 2 units of 2^-26. */
  lemma SubtractError(a: Raw, b: Raw)
    requires INT64_MIN <= Decode(a) - Decode(b) <= INT64_MAX
    ensures -128 < Denote(a) - Denote(b) - Denote(Subtract(a, b)) < 2 * 128
  {
    hide Denote, Decode, Encode;
  }

  /** Absent saturation a product of on-grid operands loses less than two units of 2^-26.  The
      exact product counts in units of 2^-66. */
  lemma MultiplyError(a: Raw, b: Raw)
    requires OnGrid(a) && OnGrid(b)
    requires INT64_MIN <= Decode(a) * Decode(b) / 0x400_0000 <= INT64_MAX
    ensures 0 <= Denote(a) * Denote(b) - Denote(Multiply(a, b)) * 0x2_0000_0000
              < 2 * 128 * 0x2_0000_0000
  {
    hide Denote, Decode, Encode, OnGrid;
    DecodeMonotone(a, a);
    DecodeMonotone(b, b);
    var p := Decode(a) * Decode(b);
    assert Denote(a) * Denote(b) == 128 * 128 * p;
    var q := p / 0x400_0000;
    assert 0 <= p - q * 0x400_0000 < 0x400_0000;
  }

  /** Truncating a product and dropping it to even loses less than two units of 2^-26. */
  lemma ProductLoss(a: Raw, b: Raw)
    requires Fits(Decode(a) * Decode(b) / 0x400_0000)
    ensures 0 <= Decode(a) * Decode(b) - 0x400_0000 * Decode(Multiply(a, b)) < 2 * 0x400_0000
  {
    hide Decode, Denote, OnGrid, Encode;
    var p := Decode(a) * Decode(b);
    var q := p / 0x400_0000;
    assert 0 <= p - q * 0x400_0000 < 0x400_0000;
  }

  /** An even count in range encodes to itself. */
  lemma EvenEncodesExactly(c: int)
    requires c % 2 == 0 && INT64_MIN <= c <= INT64_MAX
    ensures Decode(Encode(c)) == c && Denote(Encode(c)) == 128 * c
  {
    hide Denote, Decode, Encode, OnGrid;
  }

  /** On the grid, sums and differences are exact until they saturate. */
  lemma GridExact(a: Raw, b: Raw)
    requires OnGrid(a) && OnGrid(b)
    ensures INT64_MIN <= Decode(a) + Decode(b) <= INT64_MAX ==>
      Denote(Add(a, b)) == Denote(a) + Denote(b) && Decode(Add(a, b)) == Decode(a) + Decode(b)
    ensures INT64_MIN <= Decode(a) - Decode(b) <= INT64_MAX ==>
      Denote(Subtract(a, b)) == Denote(a) - Denote(b) && Decode(Subtract(a, b)) == Decode(a) - Decode(b)
  {
    hide Denote, Decode, Encode, OnGrid, FloorEven, Clamp;
    DecodeMonotone(a, a);
    DecodeMonotone(b, b);
    var sum, difference := Decode(a) + Decode(b), Decode(a) - Decode(b);
    if INT64_MIN <= sum <= INT64_MAX {
      EvenEncodesExactly(sum);
    }
    if INT64_MIN <= difference <= INT64_MAX {
      EvenEncodesExactly(difference);
    }
  }

  // -------------------------------------------------------------------------
  // Monotonicity, saturation included
  // -------------------------------------------------------------------------

  lemma EncodeMonotone(x: int, y: int)
    requires x <= y
    ensures Denote(Encode(x)) <= Denote(Encode(y))
    ensures Decode(Encode(x)) <= Decode(Encode(y))
  {
    hide Denote, Decode, Encode;
  }

  lemma AddMonotone(a: Raw, a': Raw, b: Raw, b': Raw)
    requires LessEqual(a, a') && LessEqual(b, b')
    ensures LessEqual(Add(a, b), Add(a', b'))
  {
    hide Denote, Decode, Encode, Compare;
    DecodeMonotone(a, a');
    DecodeMonotone(b, b');
    EncodeMonotone(Decode(a) + Decode(b), Decode(a') + Decode(b'));
  }

  lemma SubtractMonotone(a: Raw, a': Raw, b: Raw, b': Raw)
    requires LessEqual(a, a') && LessEqual(b', b)
    ensures LessEqual(Subtract(a, b), Subtract(a', b'))
  {
    hide Denote, Decode, Encode, Compare;
    DecodeMonotone(a, a');
    DecodeMonotone(b', b);
    EncodeMonotone(Decode(a) - Decode(b), Decode(a') - Decode(b'));
  }

  lemma MultiplyMonotone(a: Raw, a': Raw, b: Raw)
    requires LessEqual(a, a') && !IsNegative(b)
    ensures LessEqual(Multiply(a, b), Multiply(a', b))
    ensures LessEqual(Multiply(b, a), Multiply(b, a'))
  {
    hide Denote, Decode, Encode, Compare, IsNegative;
    DecodeMonotone(a, a');
    assert Decode(b) >= 0;
    var x, y := Decode(a) * Decode(b), Decode(a') * Decode(b);
    MulOrder(Decode(a), Decode(a'), Decode(b));
    assert Decode(b) * Decode(a) == x && Decode(b) * Decode(a') == y;
    EncodeMonotone(x / 0x400_0000, y / 0x400_0000);
  }

  lemma MulOrder(x: int, y: int, k: int)
    requires x <= y && 0 <= k
    ensures x * k <= y * k
  {
  }

  /** Arithmetic on non-negative operands stays non-negative. */
  lemma NonNegativeResults(a: Raw, b: Raw)
    requires !IsNegative(a) && !IsNegative(b)
    ensures !IsNegative(Add(a, b)) && !IsNegative(Multiply(a, b))
    ensures LessEqual(b, a) ==> !IsNegative(Subtract(a, b))
  {
    hide Denote, Decode, Encode, Compare, IsNegative;
    DecodeMonotone(b, a);
    MulOrder(0, Decode(a), Decode(b));
  }
}
