/** Exact arithmetic on decimal and timestamp metadata: rescaling, byte widths, sign extension. */
module Decimals {
  import opened Common
  import opened Predicates

  lemma {:induction false} Pow10Add(a: nat, b: nat)
    ensures Pow10(a + b) == Pow10(a) * Pow10(b)
  {
    if a > 0 {
      Pow10Add(a - 1, b);
      assert Pow10(a + b) == 10 * (Pow10(a - 1) * Pow10(b)) == (10 * Pow10(a - 1)) * Pow10(b);
    }
  }

  lemma Pow10Monotone(a: nat, b: nat)
    requires a <= b
    ensures Pow10(a) <= Pow10(b)
  {
    Pow10Add(a, b - a);
    Multiply(Pow10(a), 1, Pow10(b - a));
  }

  /** Multiplying by a positive number preserves and reflects order. */
  lemma Multiply(p: int, a: int, b: int)
    requires p > 0
    ensures CompareInt(a * p, b * p) == CompareInt(a, b)
    ensures a <= b ==> p * a <= p * b
  {
    if a < b {
      assert (b - a) * p > 0;
    } else if a > b {
      assert (a - b) * p > 0;
    }
  }

  lemma Pow10Values()
    ensures Pow10(38) == 100_000_000_000_000_000_000_000_000_000_000_000_000
    ensures Pow10(39) == 10 * Pow10(38)
  {
    assert Pow10(2) == 100;
    Pow10Add(2, 2);
    Pow10Add(4, 4);
    Pow10Add(8, 8);
    Pow10Add(16, 16);
    Pow10Add(2, 4);
    Pow10Add(32, 6);
  }

  /** 10^38 is the largest power of ten a signed 128-bit integer holds. */
  lemma Pow10Fits(n: nat)
    ensures Pow10(n) <= I128_MAX <==> n <= 38
    ensures n >= 39 ==> Pow10(n) > I128_MAX + 1
  {
    Pow10Values();
    if n <= 38 { Pow10Monotone(n, 38); } else { Pow10Monotone(39, n); }
  }

  // ---------------------------------------------------------------- rescaling

  function Distance(a: int, b: int): nat { if a <= b then b - a else a - b }

  /**
   Moves an unscaled integer to another scale, or gives up when it overflows or needs rounding.
   The divisibility test is the same for truncating and Euclidean remainders, and the quotient is
   exact.
   */
  function RescaleDecimal(value: int, sourceScale: Scale, targetScale: Scale): Option<int> {
    if sourceScale == targetScale then
      Some(value)
    else
      var factor := Pow10(Distance(sourceScale, targetScale));
      if factor > I128_MAX then None
      else if sourceScale < targetScale then
        if InRange(value * factor, I128_MIN, I128_MAX) then Some(value * factor) else None
      else if value % factor == 0 then Some(value / factor)
      else None
  }

  /** `a` at one scale and `b` at another are the same rational. */
  predicate SameRational(a: int, aScale: Scale, b: int, bScale: Scale) {
    a * Pow10(bScale + 256) == b * Pow10(aScale + 256)
  }

  /** Going up by `k` digits multiplies by 10^k. */
  lemma SameRationalUp(a: int, aScale: Scale, b: int, bScale: Scale)
    requires aScale <= bScale
    ensures SameRational(a, aScale, b, bScale) <==> b == a * Pow10(bScale - aScale)
  {
    var p, f := Pow10(aScale + 256), Pow10(bScale - aScale);
    Pow10Add(aScale + 256, bScale - aScale);
    assert a * (p * f) == (a * f) * p;
    Multiply(p, a * f, b);
  }

  lemma SameRationalFlip(a: int, aScale: Scale, b: int, bScale: Scale)
    ensures SameRational(a, aScale, b, bScale) <==> SameRational(b, bScale, a, aScale)
  {
  }

  /** A successful rescale denotes the same rational, and stays within 128 bits. */
  lemma RescaleDenotesSame(value: int, sourceScale: Scale, targetScale: Scale)
    ensures var r := RescaleDecimal(value, sourceScale, targetScale);
            r.Some? ==>
              && SameRational(value, sourceScale, r.value, targetScale)
              && (InRange(value, I128_MIN, I128_MAX) ==> InRange(r.value, I128_MIN, I128_MAX))
  {
    var factor := Pow10(Distance(sourceScale, targetScale));
    if sourceScale <= targetScale {
      SameRationalUp(value, sourceScale, value * factor, targetScale);
      assert Pow10(0) == 1;
    } else if value % factor == 0 {
      var q := value / factor;
      QuotientFits(value, factor);
      SameRationalUp(q, targetScale, value, sourceScale);
      SameRationalFlip(value, sourceScale, q, targetScale);
    }
  }

  lemma QuotientFits(value: int, factor: int)
    requires factor >= 1 && value % factor == 0
    ensures value == (value / factor) * factor
    ensures InRange(value, I128_MIN, I128_MAX) ==> InRange(value / factor, I128_MIN, I128_MAX)
  {
    var q := value / factor;
    assert value == q * factor;
    if q >= 0 { Multiply(factor, 0, q); MulAtLeast(q, factor); } else { MulAtLeast(-q, factor); }
  }

  lemma MulAtLeast(a: int, f: int)
    requires a >= 0 && f >= 1
    ensures a * f >= a
  {
    assert a * (f - 1) >= 0;
  }

  /**
   Rescaling fails only when it must, with one exception: it fails exactly when no 128-bit integer
   denotes the same rational, or when zero is moved by more than 38 digits.
   */
  lemma RescaleFailsExactly(value: int, sourceScale: Scale, targetScale: Scale)
    requires InRange(value, I128_MIN, I128_MAX)
    ensures RescaleDecimal(value, sourceScale, targetScale).None?
            <==> (forall r :: InRange(r, I128_MIN, I128_MAX) ==> !SameRational(value, sourceScale, r, targetScale))
                 || (value == 0 && Distance(sourceScale, targetScale) > 38)
  {
    var digits := Distance(sourceScale, targetScale);
    var factor := Pow10(digits);
    Pow10Fits(digits);
    RescaleDenotesSame(value, sourceScale, targetScale);
    var got := RescaleDecimal(value, sourceScale, targetScale);
    if got.Some? {
      assert InRange(got.value, I128_MIN, I128_MAX);
    } else if !(value == 0 && digits > 38) {
      forall r | InRange(r, I128_MIN, I128_MAX)
        ensures !SameRational(value, sourceScale, r, targetScale)
      {
        if sourceScale < targetScale {
          SameRationalUp(value, sourceScale, r, targetScale);
          if digits > 38 { TooWide(value, factor); }
        } else {
          SameRationalFlip(value, sourceScale, r, targetScale);
          SameRationalUp(r, targetScale, value, sourceScale);
          if value == r * factor {
            if digits > 38 { TooWide(r, factor); } else { MultipleHasNoRemainder(r, factor); }
            assert false;
          }
        }
      }
    }
  }

  lemma TooWide(a: int, f: int)
    requires f > I128_MAX + 1
    ensures a != 0 ==> !InRange(a * f, I128_MIN, I128_MAX)
    ensures a == 0 ==> a * f == 0
  {
    if a > 0 { MulAtLeast(f, a); } else if a < 0 { MulAtLeast(f, -a); assert a * f == -((-a) * f); }
  }

  lemma MultipleHasNoRemainder(q: int, f: int)
    requires f >= 1
    ensures (q * f) % f == 0
  {
    var r := (q * f) % f;
    var k := (q * f) / f;
    assert q * f == k * f + r;
    assert r == (q - k) * f;
    if q > k { MulAtLeast(f, q - k); } else if q < k { MulAtLeast(f, k - q); }
  }

  /** The exception is real: 0 at scale 0 is 0 at scale 39, but the rescale gives up. */
  lemma RescaleDropsWideZero()
    ensures RescaleDecimal(0, 0, 39) == None && SameRational(0, 0, 0, 39)
  {
    Pow10Fits(39);
  }

  /** Comparing at the file's scale with the rescaled literal is comparing the rationals. */
  lemma RescaledComparison(stored: int, fileScale: Scale, literal: int, literalScale: Scale)
    requires RescaleDecimal(literal, literalScale, fileScale).Some?
    ensures CompareDecimal(stored, fileScale, literal, literalScale)
            == CompareInt(stored, RescaleDecimal(literal, literalScale, fileScale).value)
  {
    var r := RescaleDecimal(literal, literalScale, fileScale).value;
    RescaleDenotesSame(literal, literalScale, fileScale);
    assert literal * Pow10(fileScale + 256) == r * Pow10(literalScale + 256);
    Multiply(Pow10(literalScale + 256), stored, r);
  }

  // ---------------------------------------------------------------- big-endian bytes

  function Pow256(n: nat): (p: int)
    ensures p >= 1
  {
    if n == 0 then 1 else 256 * Pow256(n - 1)
  }

  function Unsigned(bytes: Bytes): int {
    if bytes == [] then 0 else (bytes[0] as int) * Pow256(|bytes| - 1) + Unsigned(bytes[1..])
  }

  lemma {:induction false} UnsignedBounds(bytes: Bytes)
    ensures 0 <= Unsigned(bytes) < Pow256(|bytes|)
  {
    if bytes != [] {
      UnsignedBounds(bytes[1..]);
      var b, p := bytes[0] as int, Pow256(|bytes| - 1);
      Multiply(p, b, 255);
      Multiply(p, 0, b);
    }
  }

  /** The value of a two's-complement big-endian integer of any length. */
  function TwosComplement(bytes: Bytes): int
    requires bytes != []
  {
    if bytes[0] < 0x80 then Unsigned(bytes) else Unsigned(bytes) - Pow256(|bytes|)
  }

  function Fill(count: nat, byte: Byte): (s: Bytes)
    ensures |s| == count
  {
    if count == 0 then [] else [byte] + Fill(count - 1, byte)
  }

  /** A 128-bit signed integer from 16 big-endian bytes. */
  function FromBeBytes(bytes: Bytes): int
    requires |bytes| == 16
  {
    if Unsigned(bytes) > I128_MAX then Unsigned(bytes) - (U64_MAX + 1) * (U64_MAX + 1) else Unsigned(bytes)
  }

  function Decode(bytes: Bytes): Option<int> {
    if bytes == [] || |bytes| > 16 then None
    else
      var fill: Byte := if bytes[0] < 0x80 then 0 else 0xff;
      Some(FromBeBytes(Fill(16 - |bytes|, fill) + bytes))
  }

  /** Sign extension adds bytes without changing the value. */
  lemma {:induction false} FillKeepsValue(count: nat, bytes: Bytes)
    requires bytes != []
    ensures Unsigned(Fill(count, 0) + bytes) == Unsigned(bytes)
    ensures Unsigned(Fill(count, 0xff) + bytes) - Pow256(count + |bytes|) == Unsigned(bytes) - Pow256(|bytes|)
  {
    if count > 0 {
      FillKeepsValue(count - 1, bytes);
      PrependByte(0, Fill(count - 1, 0) + bytes);
      PrependByte(0xff, Fill(count - 1, 0xff) + bytes);
      assert Fill(count, 0) + bytes == [0] + (Fill(count - 1, 0) + bytes);
      assert Fill(count, 0xff) + bytes == [0xff] + (Fill(count - 1, 0xff) + bytes);
    } else {
      assert Fill(0, 0) + bytes == bytes && Fill(0, 0xff) + bytes == bytes;
    }
  }

  lemma PrependByte(b: Byte, rest: Bytes)
    ensures Unsigned([b] + rest) == (b as int) * Pow256(|rest|) + Unsigned(rest)
  {
    assert ([b] + rest)[1..] == rest;
  }

  lemma Pow256Values()
    ensures Pow256(15) * 128 == I128_MAX + 1
    ensures Pow256(16) == (U64_MAX + 1) * (U64_MAX + 1)
  {
    assert Pow256(4) == 0x1_0000_0000;
    Pow256Add(4, 4);
    Pow256Add(4, 3);
    Pow256Add(8, 7);
    Pow256Add(8, 8);
    assert Pow256(3) == 0x100_0000;
  }

  lemma {:induction false} Pow256Add(a: nat, b: nat)
    ensures Pow256(a + b) == Pow256(a) * Pow256(b)
  {
    if a > 0 {
      Pow256Add(a - 1, b);
      assert Pow256(a + b) == 256 * (Pow256(a - 1) * Pow256(b)) == (256 * Pow256(a - 1)) * Pow256(b);
    }
  }

  /** For every length from 1 to 16 the decoder returns the two's-complement value; otherwise nothing. */
  lemma DecodeIsTwosComplement(bytes: Bytes)
    ensures Decode(bytes) ==
            if bytes == [] || |bytes| > 16 then None else Some(TwosComplement(bytes))
  {
    if bytes != [] && |bytes| <= 16 {
      var fill: Byte := if bytes[0] < 0x80 then 0 else 0xff;
      var wide := Fill(16 - |bytes|, fill) + bytes;
      FillKeepsValue(16 - |bytes|, bytes);
      Pow256Values();
      UnsignedBounds(wide[1..]);
      assert Unsigned(wide) == (wide[0] as int) * Pow256(15) + Unsigned(wide[1..]);
      var first := wide[0] as int;
      assert first < 128 <==> bytes[0] < 0x80;
      if first < 128 { Multiply(Pow256(15), first, 127); } else { Multiply(Pow256(15), 128, first); }
    }
  }

  // ---------------------------------------------------------------- decimal width

  /** One more than the largest value of `bytes` two's-complement bytes: 2^(8 * bytes - 1). */
  function HalfRange(bytes: nat): int
    requires bytes >= 1
  {
    128 * Pow256(bytes - 1)
  }

  predicate FitsBytes(v: int, bytes: nat)
    requires bytes >= 1
  {
    -HalfRange(bytes) <= v < HalfRange(bytes)
  }

  function FindWidth(required: int, from: nat): Option<nat>
    requires 1 <= from <= 17
    decreases 17 - from
  {
    if from == 17 then None
    else if required <= HalfRange(from) then Some(from)
    else FindWidth(required, from + 1)
  }

  function DecimalByteWidth(precision: nat): Option<nat> {
    if 1 <= precision <= 38 then FindWidth(Pow10(precision), 1) else None
  }

  lemma {:induction false} FindWidthIsLeast(required: int, from: nat)
    requires 1 <= from <= 16 && required <= HalfRange(16)
    ensures var w := FindWidth(required, from);
            && w.Some? && from <= w.value <= 16 && required <= HalfRange(w.value)
            && forall n :: from <= n < w.value ==> required > HalfRange(n)
    decreases 17 - from
  {
    if required > HalfRange(from) && from < 16 { FindWidthIsLeast(required, from + 1); }
  }

  /**
   For every precision from 1 to 38 the width holds every decimal of that precision and no smaller
   width does; other precisions have none.
   */
  lemma DecimalByteWidthIsLeast(precision: nat)
    ensures var w, largest := DecimalByteWidth(precision), Pow10(precision) - 1;
            if 1 <= precision <= 38 then
              && w.Some? && 1 <= w.value <= 16
              && (forall v :: -largest <= v <= largest ==> FitsBytes(v, w.value))
              && (forall n :: 1 <= n < w.value ==> !FitsBytes(largest, n))
            else w.None?
  {
    hide FindWidth, Pow10, Pow256;
    if 1 <= precision <= 38 {
      Pow256Values();
      Pow10Fits(precision);
      FindWidthIsLeast(Pow10(precision), 1);
      var w, largest := DecimalByteWidth(precision).value, Pow10(precision) - 1;
      forall n | 1 <= n < w ensures !FitsBytes(largest, n) { assert Pow10(precision) > HalfRange(n); }
    }
  }

  // ---------------------------------------------------------------- timestamps

  /** The stored integer a microsecond literal would have in a column of the unit, if there is one. */
  function TimestampPhysical(micros: int, unit: TimeUnit): Option<int> {
    match unit
    case Second => if micros % 1_000_000 == 0 then Some(micros / 1_000_000) else None
    case Millisecond => if micros % 1_000 == 0 then Some(micros / 1_000) else None
    case Microsecond => Some(micros)
    case Nanosecond => if InRange(micros * 1_000, I64_MIN, I64_MAX) then Some(micros * 1_000) else None
  }

  /** A 64-bit stored timestamp equals the literal exactly when it is the converted literal. */
  lemma TimestampPhysicalIsExact(micros: int, unit: TimeUnit, stored: int)
    requires InRange(stored, I64_MIN, I64_MAX)
    ensures stored * NanosPer(unit) == micros * NanosPer(Microsecond)
            <==> TimestampPhysical(micros, unit) == Some(stored)
  {
    match unit {
      case Second => ExactQuotient(micros, 1_000_000, stored);
      case Millisecond => ExactQuotient(micros, 1_000, stored);
      case Microsecond =>
      case Nanosecond =>
    }
  }

  lemma ExactQuotient(n: int, d: int, q: int)
    requires d >= 1
    ensures q * d == n <==> n % d == 0 && n / d == q
  {
    if q * d == n { MultipleHasNoRemainder(q, d); }
    assert n == (n / d) * d + n % d;
    Multiply(d, q, n / d);
  }
}
