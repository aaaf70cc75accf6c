/** Parsing the text of Hive partition values, held as UTF-8 bytes. */
module HiveValues {
  import opened Common
  import CivilDate

  const DASH: Byte := 45
  const PLUS: Byte := 43
  const TRUE_TEXT: Bytes := [116, 114, 117, 101]
  const FALSE_TEXT: Bytes := [102, 97, 108, 115, 101]

  function LowerByte(b: Byte): Byte { if 65 <= b <= 90 then b + 32 else b }

  predicate EqIgnoreAsciiCase(a: Bytes, b: Bytes) {
    |a| == |b| && forall k :: 0 <= k < |a| ==> LowerByte(a[k]) == LowerByte(b[k])
  }

  function ParseBool(s: Bytes): Option<bool> {
    if EqIgnoreAsciiCase(s, TRUE_TEXT) then Some(true)
    else if EqIgnoreAsciiCase(s, FALSE_TEXT) then Some(false)
    else None
  }

  function Word(flag: bool): string { if flag then "true" else "false" }

  /** The flag's word, each letter in either case. */
  predicate SpellsFlag(s: Bytes, flag: bool) {
    var word := Word(flag);
    && |s| == |word|
    && forall k :: 0 <= k < |s| ==> s[k] as int == word[k] as int || s[k] as int == word[k] as int - 32
  }

  /** A text parses to a flag if and only if it spells it, and no text spells both. */
  lemma ParseBoolExact(s: Bytes)
    ensures forall flag :: ParseBool(s) == Some(flag) <==> SpellsFlag(s, flag)
    ensures !(SpellsFlag(s, true) && SpellsFlag(s, false))
  {
    assert |TRUE_TEXT| == |Word(true)| && |FALSE_TEXT| == |Word(false)|;
    assert forall k :: 0 <= k < |TRUE_TEXT| ==> TRUE_TEXT[k] as int == Word(true)[k] as int;
    assert forall k :: 0 <= k < |FALSE_TEXT| ==> FALSE_TEXT[k] as int == Word(false)[k] as int;
    forall flag ensures ParseBool(s) == Some(flag) <==> SpellsFlag(s, flag) {
      EitherCase(s, TRUE_TEXT);
      EitherCase(s, FALSE_TEXT);
    }
  }

  lemma EitherCase(s: Bytes, word: Bytes)
    requires forall k :: 0 <= k < |word| ==> 97 <= word[k] <= 122
    ensures EqIgnoreAsciiCase(s, word) <==>
            |s| == |word|
            && forall k :: 0 <= k < |s| ==> s[k] == word[k] || s[k] as int == word[k] as int - 32
  {
  }

  predicate IsDigit(b: Byte) { 48 <= b <= 57 }

  /** The value of a run of decimal digits, most significant first. */
  function DigitsValue(s: Bytes): (v: int)
    requires forall k :: 0 <= k < |s| ==> IsDigit(s[k])
    ensures v >= 0
  {
    if s == [] then 0
    else
      assert IsDigit(s[|s| - 1]);
      DigitsValue(s[..|s| - 1]) * 10 + (s[|s| - 1] as int - 48)
  }

  predicate AllDigits(s: Bytes) { s != [] && forall k :: 0 <= k < |s| ==> IsDigit(s[k]) }

  /** An optional sign (minus only when signed), then digits, with the value in range. */
  function ParseInteger(s: Bytes, signed: bool, low: int, high: int): Option<int> {
    var negative := s != [] && signed && s[0] == DASH;
    var digits := if s != [] && (s[0] == PLUS || negative) then s[1..] else s;
    if !AllDigits(digits) then None
    else
      var v := if negative then -DigitsValue(digits) else DigitsValue(digits);
      if low <= v <= high then Some(v) else None
  }

  function ParseI64(s: Bytes): Option<int> { ParseInteger(s, true, I64_MIN, I64_MAX) }

  function ParseI32(s: Bytes): Option<int> { ParseInteger(s, true, I32_MIN, I32_MAX) }

  function ParseU32(s: Bytes): Option<int> { ParseInteger(s, false, 0, U32_MAX) }

  function FindByte(s: Bytes, b: Byte): (at: Option<nat>)
    ensures at.Some? ==> at.value < |s| && s[at.value] == b && b !in s[..at.value]
    ensures at.None? ==> b !in s
  {
    if s == [] then None
    else if s[0] == b then Some(0)
    else
      match FindByte(s[1..], b)
      case None => None
      case Some(k) => assert s[..k + 1] == [s[0]] + s[1..][..k]; Some(k + 1)
  }

  function Split(s: Bytes, b: Byte): (parts: seq<Bytes>)
    ensures parts != [] && forall k :: 0 <= k < |parts| ==> b !in parts[k]
    ensures Join(parts, b) == s
    decreases |s|
  {
    match FindByte(s, b)
    case None => [s]
    case Some(k) =>
      var rest := Split(s[k + 1..], b);
      assert ([s[..k]] + rest)[1..] == rest;
      [s[..k]] + rest
  }

  function Join(parts: seq<Bytes>, b: Byte): Bytes {
    if parts == [] then [] else if |parts| == 1 then parts[0] else parts[0] + [b] + Join(parts[1..], b)
  }

  lemma {:induction false} FindFirst(head: Bytes, b: Byte, rest: Bytes)
    requires b !in head
    ensures FindByte(head + [b] + rest, b) == Some(|head|)
  {
    if head != [] {
      assert head[0] in head;
      assert (head + [b] + rest)[1..] == head[1..] + [b] + rest;
      FindFirst(head[1..], b, rest);
    }
  }

  /** Splitting undoes joining: the parts are the only ones free of the separator that join to the text. */
  lemma {:induction false} SplitJoined(parts: seq<Bytes>, b: Byte)
    requires parts != [] && forall k :: 0 <= k < |parts| ==> b !in parts[k]
    ensures Split(Join(parts, b), b) == parts
  {
    if |parts| == 1 {
      assert FindByte(parts[0], b).None?;
    } else {
      var rest := Join(parts[1..], b);
      SplitJoined(parts[1..], b);
      FindFirst(parts[0], b, rest);
      var s := parts[0] + [b] + rest;
      assert s[..|parts[0]|] == parts[0] && s[|parts[0]| + 1..] == rest;
    }
  }

  // ---------------------------------------------------------------- numerals

  /** The decimal numeral of a number, without leading zeros. */
  function Render(n: nat): Bytes {
    if n < 10 then [(48 + n) as Byte] else Render(n / 10) + [(48 + n % 10) as Byte]
  }

  function Zeros(k: nat): (s: Bytes)
    ensures |s| == k && forall i :: 0 <= i < k ==> s[i] == 48
  {
    seq(k, _ => 48)
  }

  lemma DigitsAppend(s: Bytes, b: Byte)
    requires (forall k :: 0 <= k < |s| ==> IsDigit(s[k])) && IsDigit(b)
    ensures forall k :: 0 <= k < |s + [b]| ==> IsDigit((s + [b])[k])
    ensures DigitsValue(s + [b]) == DigitsValue(s) * 10 + (b as int - 48)
  {
    assert (s + [b])[..|s|] == s;
  }

  /** Digits read back what was rendered, whatever zeros lead. */
  lemma {:induction false} DigitsOfRendered(zeros: nat, n: nat)
    ensures AllDigits(Zeros(zeros) + Render(n)) && DigitsValue(Zeros(zeros) + Render(n)) == n
    decreases n
  {
    if n < 10 {
      ZeroValue(zeros);
      DigitsAppend(Zeros(zeros), (48 + n) as Byte);
    } else {
      DigitsOfRendered(zeros, n / 10);
      DigitsAppend(Zeros(zeros) + Render(n / 10), (48 + n % 10) as Byte);
      assert Zeros(zeros) + Render(n) == Zeros(zeros) + Render(n / 10) + [(48 + n % 10) as Byte];
    }
  }

  lemma {:induction false} ZeroValue(zeros: nat)
    ensures DigitsValue(Zeros(zeros)) == 0
  {
    if zeros > 0 {
      ZeroValue(zeros - 1);
      assert Zeros(zeros)[..zeros - 1] == Zeros(zeros - 1);
    }
  }

  lemma RenderAppend(n: nat, digit: nat)
    requires digit < 10
    ensures Render(10 * n + digit) == (if n == 0 then [] else Render(n)) + [(48 + digit) as Byte]
  {
    assert (10 * n + digit) / 10 == n && (10 * n + digit) % 10 == digit;
  }

  /** Every run of digits is a rendered number after some zeros. */
  lemma {:induction false} DigitsAreRendered(s: Bytes) returns (zeros: nat)
    requires AllDigits(s)
    ensures s == Zeros(zeros) + Render(DigitsValue(s))
    decreases |s|
  {
    var init, last := s[..|s| - 1], s[|s| - 1];
    assert s == init + [last];
    DigitsAppend(init, last);
    RenderAppend(DigitsValue(init), last as int - 48);
    if init == [] {
      zeros := 0;
    } else {
      zeros := DigitsAreRendered(init);
      assert Render(0) == [48];
      hide Render, DigitsValue;
      if DigitsValue(init) == 0 {
        assert Zeros(zeros) + [48] == Zeros(zeros + 1);
        zeros := zeros + 1;
      }
    }
  }

  /** An optional plus, any zeros, the numeral. */
  function Numeral(plus: bool, zeros: nat, n: nat): Bytes {
    (if plus then [PLUS] else []) + (Zeros(zeros) + Render(n))
  }

  ghost predicate Spells(s: Bytes, n: nat) {
    exists plus: bool, zeros: nat :: s == Numeral(plus, zeros, n)
  }

  lemma NumeralParses(plus: bool, zeros: nat, n: nat, signed: bool, low: int, high: int)
    ensures ParseInteger(Numeral(plus, zeros, n), signed, low, high) == if low <= n <= high then Some(n) else None
  {
    var s, digits := Numeral(plus, zeros, n), Zeros(zeros) + Render(n);
    DigitsOfRendered(zeros, n);
    hide Render, Zeros, DigitsValue;
    assert IsDigit(digits[0]);
    if plus { assert s[0] == PLUS && s[1..] == digits; } else { assert s == digits; }
  }

  lemma ParsedIsNumeral(s: Bytes, signed: bool, low: int, high: int) returns (plus: bool, zeros: nat)
    requires DASH !in s && ParseInteger(s, signed, low, high).Some?
    ensures var n := ParseInteger(s, signed, low, high).value;
            n >= 0 && low <= n <= high && s == Numeral(plus, zeros, n)
  {
    hide Render, Zeros;
    assert s[0] in s;
    plus := s[0] == PLUS;
    zeros := DigitsAreRendered(if plus then s[1..] else s);
    assert plus ==> s == [PLUS] + s[1..];
  }

  /** A text without a minus parses exactly as the number it spells, if that is in range. */
  lemma ParseIntegerExact(s: Bytes, signed: bool, low: int, high: int, n: int)
    requires DASH !in s
    ensures ParseInteger(s, signed, low, high) == Some(n) <==> n >= 0 && Spells(s, n) && low <= n <= high
  {
    hide ParseInteger, Numeral;
    if ParseInteger(s, signed, low, high) == Some(n) {
      var plus, zeros := ParsedIsNumeral(s, signed, low, high);
    }
    if n >= 0 && Spells(s, n) && low <= n <= high {
      var plus: bool, zeros: nat :| s == Numeral(plus, zeros, n);
      NumeralParses(plus, zeros, n, signed, low, high);
    }
  }

  /** A minus, any zeros, the numeral. */
  ghost predicate SpellsNegative(s: Bytes, n: nat) {
    exists zeros: nat :: s == [DASH] + Numeral(false, zeros, n)
  }

  /** A numeral, or the numeral of the opposite after a minus. */
  ghost predicate SpellsSigned(s: Bytes, n: int) {
    (n >= 0 && Spells(s, n)) || (n <= 0 && SpellsNegative(s, -n))
  }

  /** Every text: a signed number parses to exactly what it spells, if that is in range. */
  lemma ParseSignedExact(s: Bytes, low: int, high: int, n: int)
    ensures ParseInteger(s, true, low, high) == Some(n) <==> SpellsSigned(s, n) && low <= n <= high
  {
    if s != [] && s[0] == DASH {
      NegativeExact(s, low, high, n);
    } else if DASH in s {
      hide Spells;
      NoInnerDash(s, low, high);
      if n >= 0 && Spells(s, n) { SpelledHasNoDash(s, n); }
    } else {
      ParseIntegerExact(s, true, low, high, n);
    }
  }

  lemma NoInnerDash(s: Bytes, low: int, high: int)
    requires DASH in s && s[0] != DASH
    ensures ParseInteger(s, true, low, high) == None
  {
    var k :| 0 <= k < |s| && s[k] == DASH;
    var digits := if s[0] == PLUS then s[1..] else s;
    assert digits[if s[0] == PLUS then k - 1 else k] == DASH;
  }

  lemma NegativeParses(zeros: nat, n: nat, low: int, high: int)
    ensures ParseInteger([DASH] + Numeral(false, zeros, n), true, low, high)
            == if low <= 0 - n <= high then Some(0 - n) else None
  {
    var s, digits := [DASH] + Numeral(false, zeros, n), Zeros(zeros) + Render(n);
    DigitsOfRendered(zeros, n);
    hide Render, Zeros, DigitsValue;
    assert s[1..] == digits;
  }

  lemma ParsedIsNegative(s: Bytes, low: int, high: int)
    requires s != [] && s[0] == DASH && ParseInteger(s, true, low, high).Some?
    ensures var n := ParseInteger(s, true, low, high).value;
            n <= 0 && low <= n <= high && SpellsNegative(s, -n)
  {
    hide Render, Zeros;
    var n := DigitsValue(s[1..]);
    var zeros := DigitsAreRendered(s[1..]);
    assert [] + (Zeros(zeros) + Render(n)) == Zeros(zeros) + Render(n);
    assert s == [DASH] + Numeral(false, zeros, n);
  }

  lemma NegativeExact(s: Bytes, low: int, high: int, n: int)
    requires s != [] && s[0] == DASH
    ensures ParseInteger(s, true, low, high) == Some(n) <==> SpellsSigned(s, n) && low <= n <= high
  {
    hide ParseInteger, Numeral, Spells;
    if n >= 0 && Spells(s, n) { SpelledHasNoDash(s, n); }
    if ParseInteger(s, true, low, high) == Some(n) { ParsedIsNegative(s, low, high); }
    if n <= 0 && low <= n <= high && SpellsNegative(s, -n) {
      var zeros: nat :| s == [DASH] + Numeral(false, zeros, -n);
      NegativeParses(zeros, -n, low, high);
    }
  }

  // ---------------------------------------------------------------- dates

  /** Year, month and day of a dash-separated text, before the calendar is consulted. */
  function DateParts(s: Bytes): Option<(int, int, int)> {
    var parts := Split(s, DASH);
    if |parts| != 3 then None
    else
      var year, month, day := ParseI32(parts[0]), ParseU32(parts[1]), ParseU32(parts[2]);
      if year.Some? && month.Some? && day.Some? then Some((year.value, month.value, day.value)) else None
  }

  function ParseDate32(s: Bytes): Option<int> {
    match DateParts(s)
    case None => None
    case Some((year, month, day)) => CivilDate.Date32(year, month, day)
  }

  /** A part of a dash-separated text has no minus sign, so years are never negative. */
  lemma YearIsNonNegative(s: Bytes)
    requires DateParts(s).Some?
    ensures DateParts(s).value.0 >= 0
  {
    var year := Split(s, DASH)[0];
    if year != [] { assert year[0] in year; }
  }

  /**
   A text is a date exactly when it is three numbers forming a valid calendar date whose day count
   leaves room for the intermediate sum; its value is the day-by-day count from 1970-01-01.
   */
  lemma ParseDate32Exact(s: Bytes)
    ensures ParseDate32(s) ==
            if DateParts(s).None? then None
            else
              var (year, month, day) := DateParts(s).value;
              if CivilDate.ValidDate(year, month, day)
                 && CivilDate.CountedDay(year, month, day) <= I32_MAX - 719_468
              then Some(CivilDate.CountedDay(year, month, day)) else None
  {
    if DateParts(s).Some? {
      var (year, month, day) := DateParts(s).value;
      YearIsNonNegative(s);
      CivilDate.Date32Exact(year, month, day);
      if CivilDate.ValidDate(year, month, day) { CivilDate.DayNumberCounts(year, month, day); }
    }
  }

  /** Three spelled numbers, in the ranges of their machine types, with dashes between. */
  ghost predicate Denotes(s: Bytes, year: nat, month: nat, day: nat) {
    && year <= I32_MAX && month <= U32_MAX && day <= U32_MAX
    && exists a, b, c :: Spells(a, year) && Spells(b, month) && Spells(c, day) && s == Join([a, b, c], DASH)
  }

  lemma SpelledHasNoDash(s: Bytes, n: nat)
    requires Spells(s, n)
    ensures DASH !in s
  {
    var plus: bool, zeros: nat :| s == Numeral(plus, zeros, n);
    DigitsOfRendered(zeros, n);
    hide Render, Zeros, DigitsValue;
    var digits := Zeros(zeros) + Render(n);
    assert forall k :: 0 <= k < |digits| ==> IsDigit(digits[k]);
  }

  lemma DatePartsExact(s: Bytes, year: int, month: int, day: int)
    ensures DateParts(s) == Some((year, month, day))
            <==> year >= 0 && month >= 0 && day >= 0 && Denotes(s, year, month, day)
  {
    hide ParseInteger, Spells;
    var parts := Split(s, DASH);
    if |parts| == 3 {
      ParseIntegerExact(parts[0], true, I32_MIN, I32_MAX, year);
      ParseIntegerExact(parts[1], false, 0, U32_MAX, month);
      ParseIntegerExact(parts[2], false, 0, U32_MAX, day);
      assert parts == [parts[0], parts[1], parts[2]];
    }
    if year >= 0 && month >= 0 && day >= 0 && Denotes(s, year, month, day) {
      var a, b, c :| Spells(a, year) && Spells(b, month) && Spells(c, day) && s == Join([a, b, c], DASH);
      SpelledHasNoDash(a, year);
      SpelledHasNoDash(b, month);
      SpelledHasNoDash(c, day);
      SplitJoined([a, b, c], DASH);
    }
  }

  /** The text denotes a date of that day, and the day is accepted. */
  ghost predicate DenotesDay(s: Bytes, dayNumber: int) {
    exists year: nat, month: nat, day: nat ::
      && Denotes(s, year, month, day) && CivilDate.ValidDate(year, month, day)
      && dayNumber == CivilDate.CountedDay(year, month, day) <= I32_MAX - 719_468
  }

  /** A text parses to a day if and only if it denotes an accepted date of that day. */
  lemma ParsesToDenotedDay(s: Bytes, dayNumber: int)
    ensures ParseDate32(s) == Some(dayNumber) <==> DenotesDay(s, dayNumber)
  {
    hide Denotes, CivilDate.Date32, CivilDate.CountedDay;
    ParseDate32Exact(s);
    if ParseDate32(s) == Some(dayNumber) {
      var (year, month, day) := DateParts(s).value;
      DatePartsExact(s, year, month, day);
    }
    if year: nat, month: nat, day: nat :|
       && Denotes(s, year, month, day) && CivilDate.ValidDate(year, month, day)
       && dayNumber == CivilDate.CountedDay(year, month, day) <= I32_MAX - 719_468
    {
      DatePartsExact(s, year, month, day);
    }
  }

  lemma ParsedInRange(s: Bytes)
    ensures ParseI64(s).Some? ==> I64_MIN <= ParseI64(s).value <= I64_MAX
    ensures ParseDate32(s).Some? ==> I32_MIN <= ParseDate32(s).value <= I32_MAX
  {
    ParseDate32Exact(s);
  }
}
