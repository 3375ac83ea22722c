/** The interval tests of the question scanner are exact: they hold just when some scalar can be appended. */
module Lookahead {
  import opened Unicode
  import opened Numerals
  import opened QuestionScanner

  function EndingIndex(c: Code): (i: nat)
    requires c == QUESTION_MARK || IsSpace(c)
    ensures i < |ENDINGS| && ENDINGS[i] == c
  {
    if c == QUESTION_MARK then 0
    else if c <= 0x0D then c - 0x09 + 1
    else if c <= 0x20 then c - 0x1C + 6
    else if c == 0x85 then 11
    else if c == 0xA0 then 12
    else if c == 0x1680 then 13
    else if c <= 0x200A then c - 0x2000 + 14
    else if c == 0x2028 then 25
    else if c == 0x2029 then 26
    else if c == 0x202F then 27
    else if c == 0x205F then 28
    else 29
  }

  lemma EndingsAreMarkAndSpaces(c: Code)
    ensures c in ENDINGS <==> c == QUESTION_MARK || IsSpace(c)
  {
    if c == QUESTION_MARK || IsSpace(c) {
      var i := EndingIndex(c);
      assert ENDINGS[i] == c;
    }
  }

  /** With the budget used up, only a question mark or a trailing space can be the last character. */
  lemma FullTextEndsInEnding(k: Context, text: Text, c: Code)
    requires TextCanFinish(k, text + [c], k.maxBytes)
    ensures c in ENDINGS
  {
    EndingsAreMarkAndSpaces(c);
    if !IsSpace(c) {
      StripAppendVisible(text, c);
    }
  }

  lemma BandSound(k: Context, q: Scan, low: int, high: int, first: Code, last: Code, width: nat) returns (c: Code)
    requires BandCanFinish(k, q, low, high, first, last, width)
    requires forall c: Code :: first <= c <= last ==> IsScalar(c) && Width(c) == width
    ensures low <= c <= high && Append(k, q, c).Continue?
  {
    var start, end := Max(low, first), Min(high, last);
    if width + 1 < k.maxBytes - q.textBytes {
      c := start;
    } else {
      c :| start <= c <= end && TextCanFinish(k, q.text + [c], q.textBytes + width);
    }
  }

  lemma BandComplete(k: Context, q: Scan, low: int, high: int, first: Code, last: Code, width: nat, c: Code)
    requires low <= c <= high && first <= c <= last && Width(c) == width
    requires Append(k, q, c).Continue? && width < k.maxBytes - q.textBytes
    ensures BandCanFinish(k, q, low, high, first, last, width)
  {
    assert TextCanFinish(k, q.text + [c], q.textBytes + width);
  }

  ghost predicate SomeScalarFits(k: Context, q: Scan, low: int, high: int) {
    exists c: Code :: low <= c <= high && Append(k, q, c).Continue?
  }

  lemma ScalarRangeComplete(k: Context, q: Scan, low: int, high: int, c: Code)
    requires low <= c <= high && Append(k, q, c).Continue?
    ensures ScalarRangeCanFinish(k, q, low, high)
  {
    if Width(c) == k.maxBytes - q.textBytes {
      FullTextEndsInEnding(k, q.text, c);
    } else if c <= 0x7F {
      BandComplete(k, q, low, high, 1, 0x7F, 1, c);
    } else if c <= 0x7FF {
      BandComplete(k, q, low, high, 0x80, 0x7FF, 2, c);
    } else if c <= 0xD7FF {
      BandComplete(k, q, low, high, 0x800, 0xD7FF, 3, c);
    } else if c <= 0xFFFF {
      BandComplete(k, q, low, high, 0xE000, 0xFFFF, 3, c);
    } else {
      BandComplete(k, q, low, high, 0x10000, 0x10FFFF, 4, c);
    }
  }

  lemma EndingSound(k: Context, q: Scan, low: int, high: int) returns (c: Code)
    requires EndingCanFinish(k, q, low, high)
    ensures low <= c <= high && Append(k, q, c).Continue?
  {
    c :| c in ENDINGS && low <= c <= high && Width(c) == k.maxBytes - q.textBytes
         && TextCanFinish(k, q.text + [c], k.maxBytes);
    EndingsAreMarkAndSpaces(c);
  }

  lemma ScalarRangeSound(k: Context, q: Scan, low: int, high: int) returns (c: Code)
    requires ScalarRangeCanFinish(k, q, low, high)
    ensures low <= c <= high && Append(k, q, c).Continue?
  {
    if BandCanFinish(k, q, low, high, 1, 0x7F, 1) {
      c := BandSound(k, q, low, high, 1, 0x7F, 1);
    } else if BandCanFinish(k, q, low, high, 0x80, 0x7FF, 2) {
      c := BandSound(k, q, low, high, 0x80, 0x7FF, 2);
    } else if BandCanFinish(k, q, low, high, 0x800, 0xD7FF, 3) {
      c := BandSound(k, q, low, high, 0x800, 0xD7FF, 3);
    } else if BandCanFinish(k, q, low, high, 0xE000, 0xFFFF, 3) {
      c := BandSound(k, q, low, high, 0xE000, 0xFFFF, 3);
    } else if BandCanFinish(k, q, low, high, 0x10000, 0x10FFFF, 4) {
      c := BandSound(k, q, low, high, 0x10000, 0x10FFFF, 4);
    } else {
      c := EndingSound(k, q, low, high);
    }
  }

  /** The five width bands and the fixed list of endings lose no scalar and admit none that fails. */
  lemma ScalarRangeExact(k: Context, q: Scan, low: int, high: int)
    ensures ScalarRangeCanFinish(k, q, low, high) <==> SomeScalarFits(k, q, low, high)
  {
    if ScalarRangeCanFinish(k, q, low, high) {
      var c := ScalarRangeSound(k, q, low, high);
    }
    if SomeScalarFits(k, q, low, high) {
      var c: Code :| low <= c <= high && Append(k, q, c).Continue?;
      ScalarRangeComplete(k, q, low, high, c);
    }
  }

  // Code units

  /** Once its four digits are read, the code unit yields a scalar that fits, alone or with a partner. */
  ghost predicate UnitViable(k: Context, q: Scan, unit: Code)
    requires WellFormed(q)
  {
    match q.high
    case Some(h) => IsLowSurrogate(unit) && Append(k, q, Combine(h, unit)).Continue?
    case None =>
      || Append(k, q, unit).Continue?
      || (IsHighSurrogate(unit)
          && exists low: Code :: IsLowSurrogate(low) && Append(k, q, Combine(unit, low)).Continue?)
  }

  /** `unit` is one of the code units whose four-digit spelling starts with `digits`. */
  predicate StartsWith(digits: Text, unit: Code)
    requires AllHex(digits) && |digits| <= 4
  {
    FirstUnit(digits) <= unit < FirstUnit(digits) + Span(|digits|)
  }

  ghost predicate SomeUnitViable(k: Context, q: Scan, digits: Text)
    requires WellFormed(q) && AllHex(digits) && |digits| <= 4
  {
    exists unit: Code :: StartsWith(digits, unit) && UnitViable(k, q, unit)
  }

  lemma LowHalfSound(k: Context, q: Scan, h: Code, low: int, high: int) returns (unit: Code)
    requires IsHighSurrogate(h) && LowHalfCanFinish(k, q, h, low, high)
    ensures low <= unit <= high && IsLowSurrogate(unit) && Append(k, q, Combine(h, unit)).Continue?
  {
    var base := 0x10000 + (h - 0xD800) * 0x400;
    var c := ScalarRangeSound(k, q, base + Max(low, 0xDC00) - 0xDC00, base + Min(high, 0xDFFF) - 0xDC00);
    unit := c - base + 0xDC00;
    assert Combine(h, unit) == c;
  }

  lemma LowHalfComplete(k: Context, q: Scan, h: Code, low: int, high: int, unit: Code)
    requires IsHighSurrogate(h) && low <= unit <= high
    requires IsLowSurrogate(unit) && Append(k, q, Combine(h, unit)).Continue?
    ensures LowHalfCanFinish(k, q, h, low, high)
  {
    var base := 0x10000 + (h - 0xD800) * 0x400;
    ScalarRangeComplete(k, q, base + Max(low, 0xDC00) - 0xDC00, base + Min(high, 0xDFFF) - 0xDC00, Combine(h, unit));
  }

  /** Every supplementary scalar is one surrogate pair. */
  lemma SplitPair(c: Code, l: Code, h: Code) returns (high: Code, low: Code)
    requires 0xD800 <= l <= h <= 0xDBFF
    requires 0x10000 + (l - 0xD800) * 0x400 <= c <= 0x10000 + (h - 0xD800) * 0x400 + 0x3FF
    ensures l <= high <= h && IsLowSurrogate(low) && Combine(high, low) == c
  {
    high := 0xD800 + (c - 0x10000) / 0x400;
    low := 0xDC00 + (c - 0x10000) % 0x400;
  }

  lemma HighHalfSound(k: Context, q: Scan, low: int, high: int) returns (unit: Code, partner: Code)
    requires HighHalfCanFinish(k, q, low, high)
    ensures low <= unit <= high && IsHighSurrogate(unit)
    ensures IsLowSurrogate(partner) && Append(k, q, Combine(unit, partner)).Continue?
  {
    var l, h := Max(low, 0xD800), Min(high, 0xDBFF);
    var c := ScalarRangeSound(k, q, 0x10000 + (l - 0xD800) * 0x400, 0x10000 + (h - 0xD800) * 0x400 + 0x3FF);
    unit, partner := SplitPair(c, l, h);
  }

  lemma HighHalfComplete(k: Context, q: Scan, low: int, high: int, unit: Code, partner: Code)
    requires low <= unit <= high && IsHighSurrogate(unit)
    requires IsLowSurrogate(partner) && Append(k, q, Combine(unit, partner)).Continue?
    ensures HighHalfCanFinish(k, q, low, high)
  {
    var l, h := Max(low, 0xD800), Min(high, 0xDBFF);
    ScalarRangeComplete(k, q, 0x10000 + (l - 0xD800) * 0x400, 0x10000 + (h - 0xD800) * 0x400 + 0x3FF,
                        Combine(unit, partner));
  }

  lemma UnicodePrefixSound(k: Context, q: Scan, digits: Text) returns (unit: Code)
    requires WellFormed(q) && AllHex(digits) && |digits| <= 4
    requires UnicodePrefixCanFinish(k, q, digits)
    ensures StartsWith(digits, unit) && UnitViable(k, q, unit)
  {
    var low := FirstUnit(digits);
    var high := low + Span(|digits|) - 1;
    if q.high.Some? {
      unit := LowHalfSound(k, q, q.high.value, low, high);
    } else if ScalarRangeCanFinish(k, q, low, high) {
      unit := ScalarRangeSound(k, q, low, high);
    } else {
      var partner;
      unit, partner := HighHalfSound(k, q, low, high);
    }
  }

  lemma UnicodePrefixComplete(k: Context, q: Scan, digits: Text, unit: Code)
    requires WellFormed(q) && AllHex(digits) && |digits| <= 4
    requires StartsWith(digits, unit) && UnitViable(k, q, unit)
    ensures UnicodePrefixCanFinish(k, q, digits)
  {
    var low := FirstUnit(digits);
    var high := low + Span(|digits|) - 1;
    match q.high {
      case Some(h) =>
        LowHalfComplete(k, q, h, low, high, unit);
      case None =>
        if Append(k, q, unit).Continue? {
          ScalarRangeComplete(k, q, low, high, unit);
        } else {
          var partner: Code :| IsLowSurrogate(partner) && Append(k, q, Combine(unit, partner)).Continue?;
          HighHalfComplete(k, q, low, high, unit, partner);
        }
    }
  }

  /** A hexadecimal prefix is admitted just when one of its completions leads to a scalar that fits. */
  lemma UnicodePrefixExact(k: Context, q: Scan, digits: Text)
    requires WellFormed(q) && AllHex(digits) && |digits| <= 4
    ensures UnicodePrefixCanFinish(k, q, digits) <==> SomeUnitViable(k, q, digits)
  {
    if UnicodePrefixCanFinish(k, q, digits) {
      var unit := UnicodePrefixSound(k, q, digits);
    }
    if SomeUnitViable(k, q, digits) {
      var unit: Code :| StartsWith(digits, unit) && UnitViable(k, q, unit);
      UnicodePrefixComplete(k, q, digits, unit);
    }
  }
}
