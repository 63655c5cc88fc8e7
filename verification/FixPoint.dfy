/** The two-mode 64-bit fixed-point number of the battle kernel.

A qword is STANDARD when its low bit is 0 and EXTENDED when it is 1.  `Denote` gives the number
a qword stands for, counted in units of 2^-33; `Decode` gives the coarser count in units of
2^-26 on which all arithmetic runs.  A caller may spell a qword as an unsigned or as a signed
64-bit integer, so `Raw` holds both spellings.
 */
module FixPoint {

  const INT64_MIN: int := -0x8000_0000_0000_0000
  const INT64_MAX: int := 0x7FFF_FFFF_FFFF_FFFF

  type Raw = x: int | -0x8000_0000_0000_0000 <= x < 0x1_0000_0000_0000_0000

  type Int32 = x: int | -0x8000_0000 <= x < 0x8000_0000

  const ZERO: Raw := 0

  // -------------------------------------------------------------------------
  // Bit level
  // -------------------------------------------------------------------------

  /** The low 64 bits of an integer, for the integers of at most 65 bits that ever get here. */
  function Mask64(v: int): (m: int)
    requires -0x1_0000_0000_0000_0000 <= v < 0x1_0000_0000_0000_0000
    ensures 0 <= m < 0x1_0000_0000_0000_0000
  {
    if v < 0 then v + 0x1_0000_0000_0000_0000 else v
  }

  function ToSigned64(v: int): (s: int)
    requires -0x1_0000_0000_0000_0000 <= v < 0x1_0000_0000_0000_0000
    ensures INT64_MIN <= s <= INT64_MAX
  {
    var m := Mask64(v);
    if m >= 0x8000_0000_0000_0000 then m - 0x1_0000_0000_0000_0000 else m
  }

  /** Arithmetic shift right by seven bits of a 64-bit qword. */
  function Sar7(v: int): int
    requires -0x1_0000_0000_0000_0000 <= v < 0x1_0000_0000_0000_0000
  {
    Mask64(ToSigned64(v) / 128)
  }

  predicate IsExtended(raw: Raw) {
    raw % 2 == 1
  }

  function ClearFlag(v: int): int {
    v - v % 2
  }

  function SignedCmp(lhs: int, rhs: int): int {
    if lhs > rhs then 1 else if lhs < rhs then -1 else 0
  }

  /** The denoted number, in units of 2^-33. */
  function Denote(raw: Raw): int {
    if IsExtended(raw) then ToSigned64(ClearFlag(raw)) * 128 else ToSigned64(raw)
  }

  /** Taking the signed reading of a qword keeps its low bits. */
  lemma SignedKeepsLowBits(v: int)
    requires -0x1_0000_0000_0000_0000 <= v < 0x1_0000_0000_0000_0000
    ensures ToSigned64(v) % 256 == v % 256
    ensures ToSigned64(v) % 128 == v % 128
    ensures ToSigned64(v) % 2 == v % 2
  {
    LowBitsOfShift(v, 0x100_0000_0000_0000);
    LowBitsOfShift(v, -0x100_0000_0000_0000);
  }

  lemma LowBitsOfShift(v: int, q: int)
    ensures (v + 256 * q) % 256 == v % 256
    ensures (v + 256 * q) % 128 == v % 128
    ensures (v + 256 * q) % 2 == v % 2
  {
    LowEight(v, q);
    LowSeven(v, 2 * q);
    LowOne(v, 128 * q);
  }

  lemma LowEight(v: int, q: int)
    ensures (v + 256 * q) % 256 == v % 256
  {
  }

  lemma LowSeven(v: int, q: int)
    ensures (v + 128 * q) % 128 == v % 128
  {
  }

  lemma LowOne(v: int, q: int)
    ensures (v + 2 * q) % 2 == v % 2
  {
  }

  lemma SarIsFloor(v: int)
    requires -0x1_0000_0000_0000_0000 <= v < 0x1_0000_0000_0000_0000
    ensures ToSigned64(Sar7(v)) == ToSigned64(v) / 128
  {
  }

  /** The two readings of a qword that comparison and arithmetic use, against its denotation. */
  lemma ModesOf(raw: Raw)
    ensures IsExtended(Mask64(raw)) <==> IsExtended(raw)
    ensures IsExtended(raw) ==> Denote(raw) == 128 * ToSigned64(ClearFlag(Mask64(raw)))
    ensures !IsExtended(raw) ==> Denote(raw) == ToSigned64(Mask64(raw))
    ensures ToSigned64(Sar7(Mask64(raw))) == ToSigned64(raw) / 128
    ensures Mask64(raw) % 128 == ToSigned64(raw) % 128
  {
    SignedKeepsLowBits(Mask64(raw));
    SarIsFloor(Mask64(raw));
    assert ToSigned64(Mask64(raw)) == ToSigned64(raw);
    assert Mask64(raw) % 2 == raw % 2;
  }

  /** On the 2^-25 grid: every EXTENDED qword, and a STANDARD one whose low eight bits are clear. */
  predicate OnGrid(raw: Raw)
    ensures OnGrid(raw) <==> Denote(raw) % 256 == 0
  {
    GridBits(raw);
    IsExtended(raw) || raw % 256 == 0
  }

  lemma GridBits(raw: Raw)
    ensures IsExtended(raw) || raw % 256 == 0 <==> Denote(raw) % 256 == 0
  {
    if IsExtended(raw) {
      var half := ToSigned64(ClearFlag(raw)) / 2;
      EvenWhenCleared(raw);
      TimesGrid(half);
      assert Denote(raw) == 256 * half;
    } else {
      SignedKeepsLowBits(raw);
    }
  }

  lemma EvenWhenCleared(raw: Raw)
    ensures ToSigned64(ClearFlag(raw)) == 2 * (ToSigned64(ClearFlag(raw)) / 2)
  {
    SignedKeepsLowBits(ClearFlag(raw));
    ClearedIsEven(raw);
  }

  lemma ClearedIsEven(v: int)
    ensures ClearFlag(v) % 2 == 0
  {
  }

  lemma TimesGrid(q: int)
    ensures 256 * q % 256 == 0
  {
  }

  // -------------------------------------------------------------------------
  // Comparison
  // -------------------------------------------------------------------------

  function Compare(left: Raw, right: Raw): (c: int)
    ensures -1 <= c <= 1
    ensures c < 0 <==> Denote(left) < Denote(right)
    ensures c > 0 <==> Denote(left) > Denote(right)
  {
    var lhs, rhs := Mask64(left), Mask64(right);
    ModesOf(left);
    ModesOf(right);
    if IsExtended(lhs) && !IsExtended(rhs) then
      var comparison := SignedCmp(ToSigned64(ClearFlag(lhs)), ToSigned64(Sar7(rhs)));
      if comparison == 0 && rhs % 128 != 0 then -1 else comparison
    else if !IsExtended(lhs) && IsExtended(rhs) then
      var comparison := SignedCmp(ToSigned64(Sar7(lhs)), ToSigned64(ClearFlag(rhs)));
      if comparison == 0 && lhs % 128 != 0 then 1 else comparison
    else if !IsExtended(lhs) && !IsExtended(rhs) then
      SignedCmp(ToSigned64(lhs), ToSigned64(rhs))
    else
      SignedCmp(ToSigned64(ClearFlag(lhs)), ToSigned64(ClearFlag(rhs)))
  }

  predicate Equal(lhs: Raw, rhs: Raw) {
    Compare(lhs, rhs) == 0
  }

  predicate Less(lhs: Raw, rhs: Raw) {
    Compare(lhs, rhs) < 0
  }

  predicate LessEqual(lhs: Raw, rhs: Raw) {
    Compare(lhs, rhs) <= 0
  }

  predicate Greater(lhs: Raw, rhs: Raw) {
    Compare(lhs, rhs) > 0
  }

  predicate GreaterEqual(lhs: Raw, rhs: Raw) {
    Compare(lhs, rhs) >= 0
  }

  predicate IsZero(raw: Raw)
    ensures IsZero(raw) <==> Denote(raw) == 0
  {
    Mask64(raw) < 2
  }

  predicate IsNegative(raw: Raw)
    ensures IsNegative(raw) <==> Denote(raw) < 0
  {
    Mask64(raw) / 0x8000_0000_0000_0000 == 1
  }

  predicate IsPositive(raw: Raw)
    ensures IsPositive(raw) <==> Denote(raw) > 0
  {
    ToSigned64(ClearFlag(raw)) > 0
  }

  /** The int32 bridge keeps the integer: the result denotes `value` itself, on the grid. */
  function FromInt32(value: Int32): (r: Raw)
    ensures Denote(r) == value * 0x2_0000_0000
    ensures OnGrid(r)
  {
    if value >= 0x4000_0000 || value <= -0x4000_0000 then
      IntegerModes(value);
      Mask64(value * 0x400_0000) + 1
    else
      IntegerModes(value);
      Mask64(value * 0x2_0000_0000)
  }

  lemma IntegerModes(value: Int32)
    ensures var m := Mask64(value * 0x400_0000);
      m % 2 == 0 && m + 1 < 0x1_0000_0000_0000_0000 && ToSigned64(ClearFlag(m + 1)) == value * 0x400_0000
    ensures -0x4000_0000 < value < 0x4000_0000 ==>
      var m := Mask64(value * 0x2_0000_0000);
      m % 256 == 0 && ToSigned64(m) == value * 0x2_0000_0000
  {
    if value >= 0 {
      assert Mask64(value * 0x400_0000) == 2 * (value * 0x200_0000);
      assert Mask64(value * 0x2_0000_0000) == 256 * (value * 0x200_0000);
    } else {
      assert Mask64(value * 0x400_0000) == 2 * (value * 0x200_0000 + 0x8000_0000_0000_0000);
      assert Mask64(value * 0x2_0000_0000) == 256 * (value * 0x200_0000 + 0x100_0000_0000_0000);
    }
  }

  // -------------------------------------------------------------------------
  // Arithmetic on the common 2^-26 scale
  // -------------------------------------------------------------------------

  /** Both modes brought to units of 2^-26, rounding down. */
  function Decode(raw: Raw): (c: int)
    ensures INT64_MIN <= c <= INT64_MAX
    ensures 128 * c <= Denote(raw) < 128 * c + 128
  {
    var m := Mask64(raw);
    if IsExtended(m) then ToSigned64(ClearFlag(m)) else ToSigned64(m) / 128
  }

  function Clamp(value: int): int {
    if value < INT64_MIN then INT64_MIN else if value > INT64_MAX then INT64_MAX else value
  }

  function FloorEven(value: int): int {
    value - value % 2
  }

  function EncodeStandard(c: int): (r: Raw)
    requires c % 0x400_0000 == 0 && -0x4000_0000 < c / 0x400_0000 < 0x4000_0000
    ensures 0 <= r && r % 2 == 0 && ToSigned64(r) == 128 * c
  {
    assert c == c / 0x400_0000 * 0x400_0000;
    IntegerModes(c / 0x400_0000);
    Mask64(c / 0x400_0000 * 0x2_0000_0000)
  }

  function EncodeExtended(c: int): (r: Raw)
    requires INT64_MIN <= c <= INT64_MAX
    ensures 0 <= r && r % 2 == 1 && ToSigned64(ClearFlag(r)) == FloorEven(c)
  {
    Mask64(ClearFlag(c)) + 1
  }

  /** Encoding saturates and then drops to the even value below; the result is always on the grid. */
  function Encode(common: int): (r: Raw)
    ensures 0 <= r && OnGrid(r)
    ensures Denote(r) == 128 * FloorEven(Clamp(common))
    ensures Decode(r) == FloorEven(Clamp(common))
  {
    EncodeMeaning(Clamp(common));
    var c := Clamp(common);
    if c % 0x400_0000 == 0 && -0x4000_0000 < c / 0x400_0000 < 0x4000_0000 then
      EncodeStandard(c)
    else
      EncodeExtended(c)
  }

  /** Both encodings of an in-range common value denote its even part. */
  lemma EncodeMeaning(c: int)
    requires INT64_MIN <= c <= INT64_MAX
    ensures GridPoint(EncodeExtended(c), FloorEven(c))
    ensures c % 0x400_0000 == 0 && -0x4000_0000 < c / 0x400_0000 < 0x4000_0000 ==>
      GridPoint(EncodeStandard(c), FloorEven(c))
  {
    hide EncodeStandard, EncodeExtended, ToSigned64, OnGrid, Decode;
    GridPointOf(EncodeExtended(c), FloorEven(c));
    if c % 0x400_0000 == 0 && -0x4000_0000 < c / 0x400_0000 < 0x4000_0000 {
      assert c == 2 * (c / 0x400_0000 * 0x200_0000);
      GridPointOf(EncodeStandard(c), c);
    }
  }

  predicate GridPoint(raw: Raw, c: int) {
    Denote(raw) == 128 * c && Decode(raw) == c && OnGrid(raw)
  }

  lemma GridPointOf(raw: Raw, c: int)
    requires Denote(raw) == 128 * c && c % 2 == 0
    ensures GridPoint(raw, c)
  {
    hide Denote, Decode, OnGrid;
    assert 128 * c == 256 * (c / 2);
  }

  function Add(left: Raw, right: Raw): Raw {
    Encode(Decode(left) + Decode(right))
  }

  function Subtract(left: Raw, right: Raw): Raw {
    Encode(Decode(left) - Decode(right))
  }

  function Multiply(left: Raw, right: Raw): Raw {
    Encode(Decode(left) * Decode(right) / 0x400_0000)
  }
}
