/** The unsigned LEB128 code of section 7.6 of the DWARF standard, version 5, as the string scanner
reads and writes it. */
module Uleb128 {
  import opened Wrappers
  import opened Powers

  type Byte = x: int | 0 <= x < 256

  const MAX_BYTES: nat := 5

  // -------------------------------------------------------------------------
  // The code as functions
  // -------------------------------------------------------------------------

  /** Seven bits a byte, least significant first, the high bit set on all but the last. */
  function Encoding(value: nat): (s: seq<Byte>)
    ensures s != []
  {
    if value < 0x80 then [value] else [value % 0x80 + 0x80] + Encoding(value / 0x80)
  }

  /** The value and the number of bytes read, if at most maxBytes bytes hold a last one. */
  function Decoding(bytes: seq<Byte>, maxBytes: nat): (r: Option<(nat, nat)>)
    ensures r.Some? ==> 0 < r.value.1 <= |bytes| && r.value.1 <= maxBytes
  {
    if maxBytes == 0 || bytes == [] then None
    else if bytes[0] < 0x80 then Some((bytes[0], 1))
    else
      match Decoding(bytes[1..], maxBytes - 1)
      case None => None
      case Some((value, length)) => Some((bytes[0] % 0x80 + 0x80 * value, length + 1))
  }

  /** The bytes a decoder may read. */
  function Window(data: seq<Byte>, offset: nat, limit: int): seq<Byte>
    requires limit <= |data|
  {
    if offset < limit then data[offset..limit] else []
  }

  // -------------------------------------------------------------------------
  // The code as the scanner computes it
  // -------------------------------------------------------------------------

  function Shifted(decoded: Option<(nat, nat)>, value: nat, shift: nat, index: nat): Option<(nat, nat)> {
    match decoded
    case None => None
    case Some((v, length)) => Some((value + v * Pow2(shift), index + length))
  }

  lemma ShiftOne(decoded: Option<(nat, nat)>, value: nat, shift: nat, index: nat, low: nat)
    ensures
      var next := match decoded { case None => None case Some((v, length)) => Some((low + 0x80 * v, length + 1)) };
      Shifted(next, value, shift, index) == Shifted(decoded, value + low * Pow2(shift), shift + 7, index + 1)
  {
    Pow2Sum(shift, 7);
    Pow2Of7();
    match decoded
    case None =>
    case Some((v, length)) =>
      Distribute(low, v, Pow2(shift));
  }

  lemma Pow2Of7()
    ensures Pow2(7) == 0x80
  {
    Pow2Sum(3, 4);
  }

  lemma Distribute(low: int, v: int, p: int)
    ensures (low + 0x80 * v) * p == low * p + v * (p * 0x80)
  {
  }

  /** One round of the decoder's loop. */
  lemma DecodeStep(window: seq<Byte>, maxBytes: nat, index: nat, value: nat, shift: nat)
    requires index < |window| && index < maxBytes
    ensures
      var now := Shifted(Decoding(window[index..], maxBytes - index), value, shift, index);
      var gathered := value + window[index] % 0x80 * Pow2(shift);
      now == if window[index] < 0x80 then Some((gathered, index + 1))
             else Shifted(Decoding(window[index + 1..], maxBytes - index - 1), gathered, shift + 7, index + 1)
  {
    hide Pow2;
    var rest := window[index..];
    assert rest[1..] == window[index + 1..];
    ShiftOne(Decoding(rest[1..], maxBytes - index - 1), value, shift, index, rest[0] % 0x80);
  }

  /** The bits already gathered lie below the shift, so disjunction is addition. */
  method DecodeUleb128(data: seq<Byte>, offset: nat, limit: int, maxBytes: nat) returns (r: Option<(nat, nat)>)
    requires limit <= |data|
    ensures r == Decoding(Window(data, offset, limit), maxBytes)
  {
    hide Pow2, Decoding, Shifted;
    var value: nat, shift: nat := 0, 0;
    ghost var window := Window(data, offset, limit);
    NothingGathered(window, maxBytes);
    for index := 0 to maxBytes
      invariant index <= |window| && value < Pow2(shift)
      invariant Decoding(window, maxBytes) == Shifted(Decoding(window[index..], maxBytes - index), value, shift, index)
    {
      var position := offset + index;
      if position >= limit {
        NothingLeft(window[index..], maxBytes - index, value, shift, index);
        return None;
      }
      var byte := data[position];
      assert byte == window[index];
      DecodeStep(window, maxBytes, index, value, shift);
      GatheredBelow(value, shift, byte % 0x80);
      value := value + byte % 0x80 * Pow2(shift);
      if byte < 0x80 {
        return Some((value, index + 1));
      }
      shift := shift + 7;
    }
    NothingLeft(window[maxBytes..], 0, value, shift, maxBytes);
    r := None;
  }

  lemma GatheredBelow(value: nat, shift: nat, low: nat)
    requires value < Pow2(shift) && low < 0x80
    ensures value + low * Pow2(shift) < Pow2(shift + 7)
  {
    hide Pow2;
    Pow2Sum(shift, 7);
    Pow2Of7();
    Distribute(low + 1, 0, Pow2(shift));
    var spare: nat := 0x7F - low;
    assert 0x80 * Pow2(shift) == (low + 1) * Pow2(shift) + spare * Pow2(shift);
  }

  lemma NothingGathered(window: seq<Byte>, maxBytes: nat)
    ensures Decoding(window, maxBytes) == Shifted(Decoding(window[0..], maxBytes), 0, 0, 0)
    ensures 0 < Pow2(0)
  {
    Pow2Zero();
    assert window[0..] == window;
  }

  lemma NothingLeft(rest: seq<Byte>, maxBytes: nat, value: nat, shift: nat, index: nat)
    requires rest == [] || maxBytes == 0
    ensures Shifted(Decoding(rest, maxBytes), value, shift, index) == None
  {
  }

  method EncodeUleb128(value: nat) returns (result: seq<Byte>)
    ensures result == Encoding(value)
  {
    var rest := value;
    result := [];
    while true
      invariant result + Encoding(rest) == Encoding(value)
      decreases rest
    {
      var byte := rest % 0x80;
      ghost var was := rest;
      rest := rest / 0x80;
      if rest != 0 {
        assert Encoding(was) == [byte + 0x80] + Encoding(rest);
        assert result + Encoding(was) == (result + [byte + 0x80]) + Encoding(rest);
        result := result + [byte + 0x80];
      } else {
        result := result + [byte];
        return;
      }
    }
  }

  // -------------------------------------------------------------------------
  // Meaning
  // -------------------------------------------------------------------------

  /** Byte k counts its low seven bits 2^(7k) times. */
  function Weighted(bytes: seq<Byte>): nat {
    if bytes == [] then 0
    else
      var k := |bytes| - 1;
      Weighted(bytes[..k]) + bytes[k] % 0x80 * Pow2(7 * k)
  }

  lemma {:induction false} WeightedCons(b: Byte, rest: seq<Byte>)
    ensures Weighted([b] + rest) == b % 0x80 + 0x80 * Weighted(rest)
    decreases |rest|
  {
    hide Pow2, Weighted;
    WeightedSnoc([b] + rest);
    Pow2Zero();
    if rest != [] {
      WeightedSnoc(rest);
      var k := |rest| - 1;
      var all := [b] + rest;
      assert all[..|all| - 1] == [b] + rest[..k];
      WeightedCons(b, rest[..k]);
      Pow2Sum(7, 7 * k);
      Pow2Of7();
      OneGroupUp(b % 0x80, Weighted(rest[..k]), rest[k] % 0x80, Pow2(7 * k));
    } else {
      assert [b] + rest == [b] && [b][..0] == [];
      WeightedNothing();
    }
  }

  lemma WeightedSnoc(bytes: seq<Byte>)
    requires bytes != []
    ensures var k := |bytes| - 1; Weighted(bytes) == Weighted(bytes[..k]) + bytes[k] % 0x80 * Pow2(7 * k)
  {
  }

  lemma OneGroupUp(low: int, w: int, d: int, p: int)
    ensures low + 0x80 * w + d * (0x80 * p) == low + 0x80 * (w + d * p)
  {
  }

  lemma WeightedNothing()
    ensures Weighted([]) == 0
  {
  }

  /** The decoder reads up to the first byte without the high bit, and weighs what it read; it reads
      nothing exactly where there is no such byte within its reach. */
  lemma {:induction false} DecodingMeaning(bytes: seq<Byte>, maxBytes: nat)
    ensures match Decoding(bytes, maxBytes)
      case Some((value, n)) =>
        && 0 < n <= |bytes| && n <= maxBytes && bytes[n - 1] < 0x80 && (forall i :: 0 <= i < n - 1 ==> bytes[i] >= 0x80)
        && value == Weighted(bytes[..n])
      case None => forall i :: 0 <= i < |bytes| && i < maxBytes ==> bytes[i] >= 0x80
    decreases maxBytes
  {
    hide Pow2, Weighted;
    if maxBytes > 0 && bytes != [] {
      var rest := bytes[1..];
      assert forall i :: 1 <= i < |bytes| ==> bytes[i] == rest[i - 1];
      DecodingMeaning(rest, maxBytes - 1);
      var n := if bytes[0] >= 0x80 && Decoding(rest, maxBytes - 1).Some? then Decoding(rest, maxBytes - 1).value.1 else 0;
      WeightedCons(bytes[0], rest[..n]);
      assert bytes[..n + 1] == [bytes[0]] + rest[..n];
      WeightedNothing();
    }
  }

  // -------------------------------------------------------------------------
  // Round trip
  // -------------------------------------------------------------------------

  /** Decoding what was encoded, whatever follows it, gives the value and the encoded length back
      exactly when the value has at most seven bits per allowed byte; otherwise it gives nothing. */
  lemma {:induction false} RoundTrip(value: nat, tail: seq<Byte>, maxBytes: nat)
    ensures Decoding(Encoding(value) + tail, maxBytes)
         == if 0 < maxBytes && value < Pow2(7 * maxBytes) then Some((value, |Encoding(value)|)) else None
    decreases maxBytes
  {
    hide Pow2;
    Pow2Zero();
    if maxBytes > 0 {
      Pow2Sum(7, 7 * (maxBytes - 1));
      Pow2Of7();
      var p := Pow2(7 * (maxBytes - 1));
      if value >= 0x80 {
        RoundTrip(value / 0x80, tail, maxBytes - 1);
        assert (Encoding(value) + tail)[1..] == Encoding(value / 0x80) + tail;
        assert value < 0x80 * p <==> value / 0x80 < p;
      }
    }
  }

  lemma ScannerLimit()
    ensures Pow2(7 * MAX_BYTES) == 0x8_0000_0000
  {
    hide Pow2;
    Pow2Of7();
    Pow2Sum(7, 7);
    Pow2Sum(14, 14);
    Pow2Sum(28, 7);
  }

  /** With the scanner's five bytes the bound is 2^35. */
  lemma ScannerRoundTrip(value: nat, tail: seq<Byte>)
    ensures Decoding(Encoding(value) + tail, MAX_BYTES)
         == if value < 0x8_0000_0000 then Some((value, |Encoding(value)|)) else None
  {
    ScannerLimit();
    RoundTrip(value, tail, MAX_BYTES);
  }

  // -------------------------------------------------------------------------
  // Canonical encodings
  // -------------------------------------------------------------------------

  /** An accepted encoding is never shorter than the encoder's, and equals it just when it is no
      longer. */
  lemma {:induction false} AcceptedLength(bytes: seq<Byte>, maxBytes: nat)
    requires Decoding(bytes, maxBytes).Some?
    ensures
      var (value, length) := Decoding(bytes, maxBytes).value;
      |Encoding(value)| <= length && (length == |Encoding(value)| <==> bytes[..length] == Encoding(value))
    decreases maxBytes
  {
    if bytes[0] >= 0x80 {
      AcceptedLength(bytes[1..], maxBytes - 1);
      var (value, length) := Decoding(bytes, maxBytes).value;
      var (upper, _) := Decoding(bytes[1..], maxBytes - 1).value;
      assert bytes[..length] == [bytes[0]] + bytes[1..][..length - 1];
      assert value / 0x80 == upper && value % 0x80 == bytes[0] - 0x80;
    }
  }

  /** No accepted encoding of the same value is shorter. */
  ghost predicate Minimal(value: nat, length: nat, maxBytes: nat) {
    forall other: seq<Byte>, n: nat :: Decoding(other, maxBytes) == Some((value, n)) ==> length <= n
  }

  /** Among the encodings the decoder accepts, the test that re-encodes the value and compares
      accepts exactly the minimal ones. */
  lemma CanonicalIffMinimal(bytes: seq<Byte>, maxBytes: nat)
    requires Decoding(bytes, maxBytes).Some?
    ensures
      var (value, length) := Decoding(bytes, maxBytes).value;
      bytes[..length] == Encoding(value) <==> Minimal(value, length, maxBytes)
  {
    var (value, length) := Decoding(bytes, maxBytes).value;
    AcceptedLength(bytes, maxBytes);
    if Minimal(value, length, maxBytes) {
      AcceptedFits(bytes, maxBytes);
      RoundTrip(value, [], maxBytes);
      assert Encoding(value) + [] == Encoding(value);
    } else {
      var other: seq<Byte>, n: nat :| Decoding(other, maxBytes) == Some((value, n)) && n < length;
      AcceptedLength(other, maxBytes);
    }
  }

  /** An accepted value has at most seven bits per allowed byte. */
  lemma {:induction false} AcceptedFits(bytes: seq<Byte>, maxBytes: nat)
    requires Decoding(bytes, maxBytes).Some?
    ensures Decoding(bytes, maxBytes).value.0 < Pow2(7 * maxBytes)
    decreases maxBytes
  {
    hide Pow2;
    Pow2Sum(7, 7 * (maxBytes - 1));
    Pow2Of7();
    if bytes[0] >= 0x80 {
      AcceptedFits(bytes[1..], maxBytes - 1);
    }
  }

  /** The scanner's length prefix: decode, check the range, re-encode, compare.  What it accepts at a
      position is the one number below 2^35 in the range whose encoding starts there. */
  method CanonicalPrefix(data: seq<Byte>, offset: nat, limit: int, minLength: int, maxLength: int)
    returns (r: Option<(nat, nat)>)
    requires limit <= |data|
    ensures r.Some? ==> Encoding(r.value.0) <= Window(data, offset, limit) && r.value.1 == |Encoding(r.value.0)|
    ensures forall value: nat ::
      (value < 0x8_0000_0000 && minLength <= value <= maxLength && Encoding(value) <= Window(data, offset, limit))
      <==> (r.Some? && r.value.0 == value)
  {
    ghost var window := Window(data, offset, limit);
    var decoded := DecodeUleb128(data, offset, limit, MAX_BYTES);
    forall value: nat | value < 0x8_0000_0000 && Encoding(value) <= window
      ensures decoded == Some((value, |Encoding(value)|))
    {
      ScannerRoundTrip(value, window[|Encoding(value)|..]);
      assert window == Encoding(value) + window[|Encoding(value)|..];
    }
    if decoded == None {
      return None;
    }
    var (length, prefixSize) := decoded.value;
    if !(minLength <= length <= maxLength) {
      return None;
    }
    assert data[offset..offset + prefixSize] == window[..prefixSize];
    var canonical := EncodeUleb128(length);
    if data[offset..offset + prefixSize] != canonical {
      return None;
    }
    ScannerLimit();
    AcceptedFits(window, MAX_BYTES);
    r := decoded;
  }
}
