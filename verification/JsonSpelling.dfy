/**
 Spellings of a text as the inside of a JSON string (section 7 of RFC 8259): each scalar is written raw,
 with a one-letter escape, with one \u escape or with a surrogate pair of them.
 */
module JsonSpelling {
  import opened Unicode
  import opened QuestionScanner
  import opened Lookahead

  datatype AnyGlyph = Raw(c: Code) | Short(letter: Code) | Unit(digits: Text) | Pair(high: Text, low: Text)

  predicate FourHex(t: Text) {
    |t| == 4 && AllHex(t)
  }

  predicate Legal(g: AnyGlyph) {
    match g
    case Raw(c) => c >= 0x20 && c != QUOTE && c != BACKSLASH && !IsSurrogate(c)
    case Short(letter) => ShortEscape(letter).Some?
    case Unit(digits) => FourHex(digits) && IsScalar(HexNumber(digits))
    case Pair(high, low) =>
      FourHex(high) && FourHex(low) && IsHighSurrogate(HexNumber(high)) && IsLowSurrogate(HexNumber(low))
  }

  type Glyph = g: AnyGlyph | Legal(g) witness Raw(0x20)

  function Print(g: Glyph): (t: Text)
    ensures t != []
  {
    match g
    case Raw(c) => [c]
    case Short(letter) => [BACKSLASH, letter]
    case Unit(digits) => [BACKSLASH, 0x75] + digits
    case Pair(high, low) => [BACKSLASH, 0x75] + high + ([BACKSLASH, 0x75] + low)
  }

  function Decode(g: Glyph): (c: Code)
    ensures IsScalar(c)
  {
    match g
    case Raw(c) => c
    case Short(letter) => ShortEscape(letter).value
    case Unit(digits) => HexNumber(digits)
    case Pair(high, low) => Combine(HexNumber(high), HexNumber(low))
  }

  function PrintAll(gs: seq<Glyph>): (t: Text) {
    if gs == [] then [] else Print(gs[0]) + PrintAll(gs[1..])
  }

  function DecodeAll(gs: seq<Glyph>): (t: Text)
    ensures |t| == |gs|
    ensures forall i :: 0 <= i < |t| ==> IsScalar(t[i])
  {
    if gs == [] then [] else [Decode(gs[0])] + DecodeAll(gs[1..])
  }

  const SHORT_LETTERS: Text := [0x22, 0x5C, 0x2F, 0x62, 0x66, 0x6E, 0x72, 0x74]
  const SHORT_SCALARS: Text := [0x22, 0x5C, 0x2F, 0x08, 0x0C, 0x0A, 0x0D, 0x09]

  /** The one-letter escapes are the eight of section 7 of RFC 8259. */
  lemma ShortEscapesAreEight(letter: Code, c: Code)
    ensures ShortEscape(letter) == Some(c)
       <==> exists i :: 0 <= i < 8 && SHORT_LETTERS[i] == letter && SHORT_SCALARS[i] == c
  {
    assert |SHORT_LETTERS| == 8 && |SHORT_SCALARS| == 8;
    if ShortEscape(letter) == Some(c) {
      var i := if letter == 0x22 then 0 else if letter == 0x5C then 1 else if letter == 0x2F then 2
               else if letter == 0x62 then 3 else if letter == 0x66 then 4 else if letter == 0x6E then 5
               else if letter == 0x72 then 6 else 7;
      assert SHORT_LETTERS[i] == letter && SHORT_SCALARS[i] == c;
    }
  }

  // Digits of a code unit

  /** The value of a hexadecimal digit is its place in the alphabet of either case. */
  lemma DigitsAreHex(c: Code, v: nat)
    ensures IsHex(c) && HexValue(c) == v
       <==> v < 16 && (c == "0123456789abcdef"[v] as int || c == "0123456789ABCDEF"[v] as int)
  {}

  /** Four digits are the number they spell. */
  lemma FourDigits(a: Code, b: Code, c: Code, d: Code)
    requires IsHex(a) && IsHex(b) && IsHex(c) && IsHex(d)
    ensures HexNumber([a, b, c, d]) == 4096 * HexValue(a) + 256 * HexValue(b) + 16 * HexValue(c) + HexValue(d)
  {
    assert [a, b, c, d][..3] == [a, b, c] && [a, b, c][..2] == [a, b] && [a, b][..1] == [a] && [a][..0] == [];
    assert HexNumber([a]) == HexValue(a);
    assert HexNumber([a, b]) == 16 * HexNumber([a]) + HexValue(b);
    assert HexNumber([a, b, c]) == 16 * HexNumber([a, b]) + HexValue(c);
  }

  lemma FirstUnitExtended(digits: Text, c: Code)
    requires AllHex(digits) && |digits| < 4 && IsHex(c)
    ensures FirstUnit(digits + [c]) == FirstUnit(digits) + HexValue(c) * Span(|digits| + 1)
  {
    var more := digits + [c];
    assert more[..|digits|] == digits;
    assert HexNumber(more) == 16 * HexNumber(digits) + HexValue(c);
    assert Span(|digits|) == 16 * Span(|more|);
  }

  lemma StartsWithShorter(digits: Text, c: Code, unit: Code)
    requires AllHex(digits) && |digits| < 4 && IsHex(c)
    requires StartsWith(digits + [c], unit)
    ensures StartsWith(digits, unit)
  {
    FirstUnitExtended(digits, c);
    assert Span(|digits|) == 16 * Span(|digits| + 1);
  }

  lemma DigitOf(offset: nat, n: nat) returns (value: nat)
    requires n < 4 && offset < Span(n)
    ensures value < 16 && value * Span(n + 1) <= offset < value * Span(n + 1) + Span(n + 1)
  {
    if n == 0 { value := offset / 0x1000; }
    else if n == 1 { value := offset / 0x100; }
    else if n == 2 { value := offset / 0x10; }
    else { value := offset; }
  }

  /** Every admitted prefix can be extended towards a given unit. */
  lemma NextDigit(digits: Text, unit: Code) returns (c: Code)
    requires AllHex(digits) && |digits| < 4 && StartsWith(digits, unit)
    ensures IsHex(c) && StartsWith(digits + [c], unit)
  {
    var step := Span(|digits| + 1);
    var offset := unit - FirstUnit(digits);
    var value := DigitOf(offset, |digits|);
    c := if value < 10 then 0x30 + value else 0x61 + value - 10;
    assert HexValue(c) == value;
    FirstUnitExtended(digits, c);
  }

  lemma {:induction false} StartsWithPrefix(full: Text, n: nat)
    requires FourHex(full) && n <= 4
    ensures StartsWith(full[..n], HexNumber(full))
    decreases 4 - n
  {
    if n == 4 {
      assert full[..4] == full;
    } else {
      StartsWithPrefix(full, n + 1);
      assert full[..n + 1] == full[..n] + [full[n]];
      StartsWithShorter(full[..n], full[n], HexNumber(full));
    }
  }

  // From spelling to scan

  lemma {:induction false} HexForward(k: Context, q: Scan, full: Text)
    requires WellFormed(q) && q.escape.UnicodeEscape? && FourHex(full)
    requires q.escape.digits == full[..|q.escape.digits|]
    requires UnitViable(k, q, HexNumber(full))
    ensures ScanAll(k, q, full[|q.escape.digits|..]) == FinishUnit(k, q, HexNumber(full))
    decreases 4 - |q.escape.digits|
  {
    var n := |q.escape.digits|;
    var body := full[n..];
    assert body[0] == full[n] && body[1..] == full[n + 1..];
    assert q.escape.digits + [full[n]] == full[..n + 1];
    StartsWithPrefix(full, n + 1);
    UnicodePrefixComplete(k, q, full[..n + 1], HexNumber(full));
    if n < 3 {
      var next := q.(escape := UnicodeEscape(full[..n + 1]));
      assert ScanCharacter(k, q, full[n]) == Continue(next);
      HexForward(k, next, full);
      assert FinishUnit(k, next, HexNumber(full)) == FinishUnit(k, q, HexNumber(full));
    } else {
      assert full[..n + 1] == full;
      assert body[1..] == [];
    }
  }

  /** A whole \u escape that can lead somewhere is read to its end. */
  lemma EscapeForward(k: Context, q: Scan, full: Text)
    requires WellFormed(q) && q.escape.NoEscape? && FourHex(full)
    requires UnitViable(k, q, HexNumber(full))
    ensures ScanAll(k, q, [BACKSLASH, 0x75] + full) == FinishUnit(k, q, HexNumber(full))
  {
    var unit := HexNumber(full);
    var q1 := q.(escape := Backslash);
    var q2 := q.(escape := UnicodeEscape([]));
    StartsWithPrefix(full, 0);
    assert full[..0] == [] && full[0..] == full;
    UnicodePrefixComplete(k, q, [], unit);
    UnicodePrefixComplete(k, q1, [], unit);
    HexForward(k, q2, full);
    assert FinishUnit(k, q2, unit) == FinishUnit(k, q, unit);
    var t := [BACKSLASH, 0x75] + full;
    assert t[1..] == [0x75] + full && ([0x75] + full)[1..] == full;
    assert ScanCharacter(k, q, t[0]) == Continue(q1);
    assert ScanCharacter(k, q1, t[1..][0]) == Continue(q2);
  }

  /** A scalar that fits in any spelling can also be written with \u, so the lookahead lets the backslash in. */
  lemma BackslashForward(k: Context, q: Scan, c: Code)
    requires WellFormed(q) && q.high.None? && c <= 0xFFFF && Append(k, q, c).Continue?
    ensures UnicodePrefixCanFinish(k, q, [])
  {
    assert StartsWith([], c);
    UnicodePrefixComplete(k, q, [], c);
  }

  lemma ScanOne(k: Context, q: Scan, c: Code)
    requires WellFormed(q) && ScanCharacter(k, q, c).Continue?
    ensures ScanAll(k, q, [c]) == ScanCharacter(k, q, c)
  {
    assert [c][1..] == [];
  }

  lemma ShortForward(k: Context, q: Scan, letter: Code)
    requires WellFormed(q) && q.escape.NoEscape? && q.high.None? && ShortEscape(letter).Some?
    requires Append(k, q, ShortEscape(letter).value).Continue?
    ensures ScanAll(k, q, [BACKSLASH, letter]) == Append(k, q, ShortEscape(letter).value)
  {
    BackslashForward(k, q, ShortEscape(letter).value);
    var q1 := q.(escape := Backslash);
    assert q1.(escape := NoEscape) == q;
    ScanOne(k, q, BACKSLASH);
    ScanOne(k, q1, letter);
    ScanAllConcat(k, q, [BACKSLASH], [letter]);
  }

  lemma PairForward(k: Context, q: Scan, high: Text, low: Text)
    requires WellFormed(q) && q.escape.NoEscape? && q.high.None?
    requires FourHex(high) && FourHex(low) && IsHighSurrogate(HexNumber(high)) && IsLowSurrogate(HexNumber(low))
    requires Append(k, q, Combine(HexNumber(high), HexNumber(low))).Continue?
    ensures ScanAll(k, q, [BACKSLASH, 0x75] + high + ([BACKSLASH, 0x75] + low))
         == Append(k, q, Combine(HexNumber(high), HexNumber(low)))
  {
    EscapeForward(k, q, high);
    var half := q.(high := Some(HexNumber(high)));
    EscapeForward(k, half, low);
    assert half.(escape := NoEscape, high := None) == q;
    ScanAllConcat(k, q, [BACKSLASH, 0x75] + high, [BACKSLASH, 0x75] + low);
  }

  lemma GlyphForward(k: Context, q: Scan, g: Glyph)
    requires WellFormed(q) && q.escape.NoEscape? && q.high.None?
    requires Append(k, q, Decode(g)).Continue?
    ensures ScanAll(k, q, Print(g)) == Append(k, q, Decode(g))
  {
    match g {
      case Raw(c) =>
        assert Print(g)[1..] == [];
      case Short(letter) =>
        ShortForward(k, q, letter);
      case Unit(digits) =>
        EscapeForward(k, q, digits);
      case Pair(high, low) =>
        PairForward(k, q, high, low);
    }
  }

  // From scan to spelling

  predicate Plain(q: Scan) {
    q.escape.NoEscape? && q.high.None?
  }

  /** Reading `body` from `q` comes, after some of it, to reading `rest` from `next`. */
  ghost predicate LeadsTo(k: Context, q: Scan, body: Text, next: Scan, rest: Text)
    requires WellFormed(q)
  {
    WellFormed(next) && ScanAll(k, next, rest) == ScanAll(k, q, body)
  }

  /** The scan goes on to the end of `body` and is outside every escape there. */
  ghost predicate EndsOutside(k: Context, q: Scan, body: Text)
    requires WellFormed(q)
  {
    var r := ScanAll(k, q, body);
    r.Continue? && r.scan.escape.NoEscape?
  }

  lemma FirstCharacter(k: Context, q: Scan, body: Text) returns (next: Scan)
    requires WellFormed(q) && body != [] && ScanAll(k, q, body).Continue?
    ensures ScanCharacter(k, q, body[0]) == Continue(next) && LeadsTo(k, q, body, next, body[1..])
  {
    next := ScanCharacter(k, q, body[0]).scan;
  }

  lemma FinishIgnoresEscape(k: Context, q: Scan, e: Escape, unit: Code)
    requires WellFormed(q) && WellFormed(q.(escape := e))
    ensures FinishUnit(k, q.(escape := e), unit) == FinishUnit(k, q, unit)
  {}

  /** One digit of a \u escape: the last completes the unit. */
  lemma DigitIsRead(k: Context, q: Scan, body: Text) returns (next: Scan)
    requires WellFormed(q) && q.escape.UnicodeEscape? && EndsOutside(k, q, body)
    ensures body != [] && IsHex(body[0]) && LeadsTo(k, q, body, next, body[1..])
    ensures var digits := q.escape.digits + [body[0]];
      && AllHex(digits)
      && (|digits| < 4 ==> next == q.(escape := UnicodeEscape(digits)))
      && (|digits| == 4 ==> FinishUnit(k, q, HexNumber(digits)) == Continue(next))
  {
    next := FirstCharacter(k, q, body);
  }

  /** The four digits lead from inside the escape to `next`. */
  ghost predicate Finishes(k: Context, q: Scan, digits: Text, next: Scan)
    requires WellFormed(q)
  {
    FourHex(digits) && FinishUnit(k, q, HexNumber(digits)) == Continue(next)
  }

  lemma FinishAlike(k: Context, q: Scan, before: Text, c: Code, tail: Text, next: Scan)
    requires WellFormed(q) && WellFormed(q.(escape := UnicodeEscape(before + [c])))
    ensures Finishes(k, q.(escape := UnicodeEscape(before + [c])), before + [c] + tail, next)
       <==> Finishes(k, q, before + ([c] + tail), next)
  {
    assert before + [c] + tail == before + ([c] + tail);
  }

  /** A scan inside a \u escape that ends outside it has read the missing digits. */
  lemma {:induction false} HexBackward(k: Context, q: Scan, body: Text) returns (more: Text, rest: Text, next: Scan)
    requires WellFormed(q) && q.escape.UnicodeEscape? && EndsOutside(k, q, body)
    ensures body == more + rest && Finishes(k, q, q.escape.digits + more, next) && LeadsTo(k, q, body, next, rest)
    decreases 4 - |q.escape.digits|
  {
    next := DigitIsRead(k, q, body);
    if |q.escape.digits| == 3 {
      more, rest := [body[0]], body[1..];
    } else {
      var inside, tail := next, [];
      tail, rest, next := HexBackward(k, inside, body[1..]);
      FinishAlike(k, q, q.escape.digits, body[0], tail, next);
      more := [body[0]] + tail;
    }
  }

  /** A backslash and a `u` open a \u escape. */
  lemma EscapeOpens(k: Context, q: Scan, tail: Text)
    requires WellFormed(q) && q.escape.NoEscape? && ScanAll(k, q, [BACKSLASH, 0x75] + tail).Continue?
    ensures LeadsTo(k, q, [BACKSLASH, 0x75] + tail, q.(escape := UnicodeEscape([])), tail)
  {
    var body := [BACKSLASH, 0x75] + tail;
    var inside := FirstCharacter(k, q, body);
    assert body[1..] == [0x75] + tail;
    inside := FirstCharacter(k, inside, [0x75] + tail);
    assert ([0x75] + tail)[1..] == tail;
  }

  /** After a backslash and a `u`, the scan reads a whole escape. */
  lemma EscapeBackward(k: Context, q: Scan, body: Text) returns (digits: Text, rest: Text, next: Scan)
    requires WellFormed(q) && q.escape.NoEscape? && EndsOutside(k, q, body)
    requires |body| >= 2 && body[0] == BACKSLASH && body[1] == 0x75
    ensures body == [BACKSLASH, 0x75] + digits + rest && Finishes(k, q, digits, next) && LeadsTo(k, q, body, next, rest)
  {
    var tail, inside := body[2..], q.(escape := UnicodeEscape([]));
    assert body == [BACKSLASH, 0x75] + tail;
    EscapeOpens(k, q, tail);
    digits, rest, next := HexBackward(k, inside, tail);
    assert [] + digits == digits;
    FinishIgnoresEscape(k, q, UnicodeEscape([]), HexNumber(digits));
  }

  /** The glyph at the front of `body` is read, and then the rest. */
  ghost predicate ReadsGlyph(k: Context, q: Scan, body: Text, g: Glyph, rest: Text)
    requires WellFormed(q)
  {
    && body == Print(g) + rest
    && Append(k, q, Decode(g)).Continue?
    && LeadsTo(k, q, body, Append(k, q, Decode(g)).scan, rest)
  }

  /** After half a pair only a \u escape is read. */
  lemma HalfNeedsEscape(k: Context, half: Scan, after: Text)
    requires WellFormed(half) && half.escape.NoEscape? && half.high.Some?
    requires var r := ScanAll(k, half, after); r.Continue? && Plain(r.scan)
    ensures |after| >= 2 && after[0] == BACKSLASH && after[1] == 0x75
  {
    assert after != [];
    var next := FirstCharacter(k, half, after);
    assert after[1..] != [];
    next := FirstCharacter(k, next, after[1..]);
  }

  lemma PairText(digits: Text, low: Text, rest: Text)
    requires FourHex(digits) && FourHex(low) && Legal(Pair(digits, low))
    ensures [BACKSLASH, 0x75] + digits + ([BACKSLASH, 0x75] + low + rest) == Print(Pair(digits, low)) + rest
  {}

  lemma PairBackward(k: Context, q: Scan, body: Text, digits: Text, after: Text) returns (g: Glyph, rest: Text)
    requires WellFormed(q) && Plain(q)
    requires FourHex(digits) && IsHighSurrogate(HexNumber(digits)) && body == [BACKSLASH, 0x75] + digits + after
    requires var r := ScanAll(k, q, body); r.Continue? && Plain(r.scan)
    requires LeadsTo(k, q, body, q.(high := Some(HexNumber(digits))), after)
    ensures ReadsGlyph(k, q, body, g, rest)
  {
    var half := q.(high := Some(HexNumber(digits)));
    HalfNeedsEscape(k, half, after);
    var low, next;
    low, rest, next := EscapeBackward(k, half, after);
    g := Pair(digits, low);
    assert half.(escape := NoEscape, high := None) == q;
    PairText(digits, low, rest);
  }

  lemma ShortBackward(k: Context, q: Scan, body: Text) returns (g: Glyph, rest: Text)
    requires WellFormed(q) && Plain(q) && body != [] && body[0] == BACKSLASH
    requires var r := ScanAll(k, q, body); r.Continue? && Plain(r.scan)
    requires |body| < 2 || body[1] != 0x75
    ensures ReadsGlyph(k, q, body, g, rest)
  {
    var inside := FirstCharacter(k, q, body);
    assert body[1..] != [] && inside == q.(escape := Backslash);
    var next := FirstCharacter(k, inside, body[1..]);
    g, rest := Short(body[1]), body[1..][1..];
    assert body == [BACKSLASH, body[1]] + rest;
    assert inside.(escape := NoEscape) == q;
  }

  lemma UnitBackward(k: Context, q: Scan, body: Text) returns (g: Glyph, rest: Text)
    requires WellFormed(q) && Plain(q) && |body| >= 2 && body[0] == BACKSLASH && body[1] == 0x75
    requires var r := ScanAll(k, q, body); r.Continue? && Plain(r.scan)
    ensures ReadsGlyph(k, q, body, g, rest)
  {
    var digits, after, next := EscapeBackward(k, q, body);
    assert q.(escape := NoEscape) == q;
    if IsHighSurrogate(HexNumber(digits)) {
      g, rest := PairBackward(k, q, body, digits, after);
    } else {
      g, rest := Unit(digits), after;
    }
  }

  lemma GlyphBackward(k: Context, q: Scan, body: Text) returns (g: Glyph, rest: Text)
    requires WellFormed(q) && Plain(q) && body != []
    requires var r := ScanAll(k, q, body); r.Continue? && Plain(r.scan)
    ensures ReadsGlyph(k, q, body, g, rest)
  {
    if body[0] != BACKSLASH {
      var next := FirstCharacter(k, q, body);
      g, rest := Raw(body[0]), body[1..];
    } else if |body| < 2 || body[1] != 0x75 {
      g, rest := ShortBackward(k, q, body);
    } else {
      g, rest := UnitBackward(k, q, body);
    }
  }

  // Whole questions

  /** Append a text scalar by scalar, as reading its spelling does. */
  function AppendAll(k: Context, q: Scan, t: Text): (r: Outcome)
    decreases |t|
  {
    if t == [] then Continue(q)
    else
      match Append(k, q, t[0])
      case Continue(next) => AppendAll(k, next, t[1..])
      case _ => Rejected
  }

  /** Reading any spelling of a text does what appending the text does. */
  lemma {:induction false} SpellingForward(k: Context, q: Scan, gs: seq<Glyph>)
    requires WellFormed(q) && Plain(q) && AppendAll(k, q, DecodeAll(gs)).Continue?
    ensures ScanAll(k, q, PrintAll(gs)) == AppendAll(k, q, DecodeAll(gs))
    decreases |gs|
  {
    if gs == [] {
    } else {
      var t := DecodeAll(gs);
      assert t[1..] == DecodeAll(gs[1..]);
      var r := Append(k, q, t[0]);
      GlyphForward(k, q, gs[0]);
      SpellingForward(k, r.scan, gs[1..]);
      ScanAllConcat(k, q, Print(gs[0]), PrintAll(gs[1..]));
    }
  }

  /** Whatever the scanner reads between two plain states is a spelling of what it appended. */
  lemma {:induction false} SpellingBackward(k: Context, q: Scan, body: Text) returns (gs: seq<Glyph>)
    requires WellFormed(q) && Plain(q)
    requires var r := ScanAll(k, q, body); r.Continue? && Plain(r.scan)
    ensures body == PrintAll(gs) && AppendAll(k, q, DecodeAll(gs)) == ScanAll(k, q, body)
    decreases |body|
  {
    if body == [] {
      gs := [];
    } else {
      var g, rest := GlyphBackward(k, q, body);
      var tail := SpellingBackward(k, Append(k, q, Decode(g)).scan, rest);
      gs := [g] + tail;
      assert gs[1..] == tail;
      assert DecodeAll(gs)[1..] == DecodeAll(tail);
    }
  }

  /** The text may be a question: no NUL and no surrogates, within the budget and, stripped, it ends in a question mark
      and repeats neither the goal nor an earlier question. */
  predicate ValidQuestion(k: Context, t: Text) {
    var value := Strip(t);
    && (forall i :: 0 <= i < |t| ==> t[i] != 0 && !(0xD800 <= t[i] <= 0xDFFF))
    && Bytes(t) <= k.maxBytes
    && value != [] && value[|value| - 1] == 0x3F
    && value != k.goal
    && (forall i :: 0 <= i < |k.taken| ==> value != k.taken[i])
  }

  /** The lookahead never rejects a prefix of a valid question. */
  lemma PrefixCanFinish(k: Context, t: Text, n: nat)
    requires ValidQuestion(k, t) && n <= |t|
    ensures Bytes(t[..n]) <= k.maxBytes && TextCanFinish(k, t[..n], Bytes(t[..n]))
  {
    assert t == t[..n] + t[n..];
    BytesConcat(t[..n], t[n..]);
    if n == |t| {
      assert t[..n] == t;
    } else if Bytes(t[..n]) >= k.maxBytes - 1 {
      assert Bytes(t[n..]) >= |t[n..]|;
      assert t == t[..n] + [t[n]];
      if IsSpace(t[n]) {
        StripAppendSpace(t[..n], t[n]);
      } else {
        StripAppendVisible(t[..n], t[n]);
      }
    }
  }

  lemma {:induction false} AppendForward(k: Context, t: Text, n: nat)
    requires ValidQuestion(k, t) && n <= |t|
    ensures AppendAll(k, Scan(t[..n], Bytes(t[..n]), NoEscape, None), t[n..])
         == Continue(Scan(t, Bytes(t), NoEscape, None))
    decreases |t| - n
  {
    if n == |t| {
      assert t[..n] == t;
    } else {
      assert t[..n] + [t[n]] == t[..n + 1];
      BytesAppend(t[..n], t[n]);
      PrefixCanFinish(k, t, n + 1);
      AppendForward(k, t, n + 1);
      assert t[n..][1..] == t[n + 1..];
    }
  }

  lemma AppendMeans(k: Context, q: Scan, c: Code)
    requires q.textBytes == Bytes(q.text) && Append(k, q, c).Continue?
    ensures IsScalar(c)
    ensures var r := Append(k, q, c).scan;
      r == q.(text := q.text + [c], textBytes := Bytes(q.text + [c])) && r.textBytes <= k.maxBytes
  {
    BytesAppend(q.text, c);
  }

  lemma {:induction false} AppendBackward(k: Context, q: Scan, t: Text)
    requires q.textBytes == Bytes(q.text) && AppendAll(k, q, t).Continue?
    ensures forall i :: 0 <= i < |t| ==> IsScalar(t[i])
    ensures var r := AppendAll(k, q, t).scan;
            r == q.(text := q.text + t, textBytes := Bytes(q.text + t)) && (t != [] ==> r.textBytes <= k.maxBytes)
    decreases |t|
  {
    if t == [] {
      assert q.text + t == q.text;
    } else {
      var next := Append(k, q, t[0]).scan;
      AppendMeans(k, q, t[0]);
      AppendBackward(k, next, t[1..]);
      assert q.text + t == next.text + t[1..];
      assert t[1..] == [] ==> t == [t[0]];
    }
  }

  /** Any spelling of a valid question is read, leaving exactly its text, ready to close. */
  lemma QuestionIsRead(k: Context, gs: seq<Glyph>)
    requires ValidQuestion(k, DecodeAll(gs))
    ensures var t := DecodeAll(gs);
            ScanAll(k, EMPTY, PrintAll(gs)) == Continue(Scan(t, Bytes(t), NoEscape, None))
            && Complete(k, Scan(t, Bytes(t), NoEscape, None))
  {
    var t := DecodeAll(gs);
    AppendForward(k, t, 0);
    assert t[..0] == [] && t[0..] == t;
    SpellingForward(k, EMPTY, gs);
  }

  lemma AcceptableIsValid(k: Context, t: Text)
    requires (forall i :: 0 <= i < |t| ==> IsScalar(t[i])) && Bytes(t) <= k.maxBytes && Acceptable(k, Strip(t))
    ensures ValidQuestion(k, t)
  {}

  lemma CompleteIsValid(k: Context, q: Scan, t: Text)
    requires q.text == [] && q.textBytes == 0
    requires var r := AppendAll(k, q, t); r.Continue? && Complete(k, r.scan)
    ensures ValidQuestion(k, t) && AppendAll(k, q, t).scan.text == t
  {
    AppendBackward(k, q, t);
    assert q.text + t == t;
    AcceptableIsValid(k, t);
  }

  /** What the scanner reads before closing is a spelling of a valid question. */
  lemma ReadIsQuestion(k: Context, body: Text) returns (gs: seq<Glyph>)
    requires var r := ScanAll(k, EMPTY, body); r.Continue? && Complete(k, r.scan)
    ensures body == PrintAll(gs) && ValidQuestion(k, DecodeAll(gs))
    ensures ScanAll(k, EMPTY, body).scan.text == DecodeAll(gs)
  {
    gs := SpellingBackward(k, EMPTY, body);
    CompleteIsValid(k, EMPTY, DecodeAll(gs));
  }
}
