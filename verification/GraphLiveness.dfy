/** Every question the graph automaton has begun can be finished, and no accepted character changes that. */
module GraphLiveness {
  import opened Unicode
  import opened QuestionScanner
  import opened Lookahead
  import opened JsonSpelling
  import opened GraphRules
  import opened GraphLanguage

  // Inside one question

  /** The question read so far can still be finished. */
  predicate ScanAlive(k: Context, q: Scan) {
    && WellFormed(q)
    && q.textBytes <= k.maxBytes
    && TextCanFinish(k, q.text, q.textBytes)
    && (q.escape.UnicodeEscape? ==> UnicodePrefixCanFinish(k, q, q.escape.digits))
    && (q.escape.Backslash? || q.high.Some? ==> UnicodePrefixCanFinish(k, q, []))
  }

  lemma HighStaysAlive(k: Context, q: Scan, digits: Text)
    requires WellFormed(q) && q.high.None? && FourHex(digits) && IsHighSurrogate(HexNumber(digits))
    requires UnicodePrefixCanFinish(k, q, digits)
    ensures var half := q.(escape := NoEscape, high := Some(HexNumber(digits)));
            WellFormed(half) && UnicodePrefixCanFinish(k, half, [])
  {
    var unit := UnicodePrefixSound(k, q, digits);
    assert unit == HexNumber(digits);
    var low: Code :| IsLowSurrogate(low) && Append(k, q, Combine(unit, low)).Continue?;
    var half := q.(escape := NoEscape, high := Some(unit));
    assert Append(k, half, Combine(unit, low)).Continue?;
    assert StartsWith([], low);
    UnicodePrefixComplete(k, half, [], low);
  }

  lemma ShorterPrefixAlive(k: Context, q: Scan, digits: Text)
    requires WellFormed(q) && AllHex(digits) && |digits| <= 4 && UnicodePrefixCanFinish(k, q, digits)
    ensures UnicodePrefixCanFinish(k, q, [])
  {
    var unit := UnicodePrefixSound(k, q, digits);
    assert StartsWith([], unit);
    UnicodePrefixComplete(k, q, [], unit);
  }

  lemma SameLookahead(k: Context, q: Scan, r: Scan, digits: Text)
    requires WellFormed(q) && WellFormed(r) && r == q.(escape := r.escape)
    requires AllHex(digits) && |digits| <= 4
    ensures UnicodePrefixCanFinish(k, q, digits) == UnicodePrefixCanFinish(k, r, digits)
  {
    if UnicodePrefixCanFinish(k, q, digits) {
      var unit := UnicodePrefixSound(k, q, digits);
      assert UnitViable(k, r, unit);
      UnicodePrefixComplete(k, r, digits, unit);
    }
    if UnicodePrefixCanFinish(k, r, digits) {
      var unit := UnicodePrefixSound(k, r, digits);
      assert UnitViable(k, q, unit);
      UnicodePrefixComplete(k, q, digits, unit);
    }
  }

  lemma HexKeepsAlive(k: Context, q: Scan, c: Code)
    requires ScanAlive(k, q) && q.escape.UnicodeEscape? && ScanHex(k, q, c).Continue?
    ensures ScanAlive(k, ScanHex(k, q, c).scan)
  {
    var digits := q.escape.digits + [c];
    var next := ScanHex(k, q, c).scan;
    if |digits| < 4 {
      SameLookahead(k, q, next, digits);
      ShorterPrefixAlive(k, next, digits);
    } else if q.high.None? && IsHighSurrogate(HexNumber(digits)) {
      HighStaysAlive(k, q, digits);
    }
  }

  /** A step that does not reject keeps the question finishable: no character leads into a dead end. */
  lemma ScanKeepsAlive(k: Context, q: Scan, c: Code)
    requires ScanAlive(k, q) && ScanCharacter(k, q, c).Continue?
    ensures ScanAlive(k, ScanCharacter(k, q, c).scan)
  {
    var next := ScanCharacter(k, q, c).scan;
    match q.escape {
      case UnicodeEscape(_) => HexKeepsAlive(k, q, c);
      case Backslash => if c == 0x75 { SameLookahead(k, q, next, []); }
      case NoEscape => if c == BACKSLASH { SameLookahead(k, q, next, []); }
    }
  }

  function Candidate(base: Text, i: nat): (t: Text)
    requires i < 26
  {
    base + [0x61 + i, QUESTION_MARK]
  }

  lemma CandidatesDiffer(base: Text, i: nat, j: nat)
    requires i < j < 26
    ensures Candidate(base, i) != Candidate(base, j)
  {
    assert Candidate(base, i)[|base|] == 0x61 + i;
    assert Candidate(base, j)[|base|] == 0x61 + j;
  }

  /** Pigeonhole: among more candidates than forbidden texts, one is not forbidden. */
  lemma {:induction false} FreeLetter(base: Text, forbidden: seq<Text>, n: nat) returns (i: nat)
    requires |forbidden| < n <= 26
    ensures i < n && Candidate(base, i) !in forbidden
  {
    var last := Candidate(base, n - 1);
    if last !in forbidden {
      i := n - 1;
    } else {
      var j :| 0 <= j < |forbidden| && forbidden[j] == last;
      var others := forbidden[..j] + forbidden[j + 1..];
      i := FreeLetter(base, others, n - 1);
      CandidatesDiffer(base, i, n - 1);
      assert forall t :: t in forbidden ==> t == last || t in others;
    }
  }

  /** The printable characters of ASCII: they are enough to complete any question. */
  predicate IsPrintable(c: Code) {
    0x20 <= c <= 0x7E
  }

  predicate AllPrintable(t: Text) {
    forall i :: 0 <= i < |t| ==> IsPrintable(t[i])
  }

  lemma FinishWithMark(k: Context, q: Scan)
    requires WellFormed(q) && Plain(q) && q.textBytes < k.maxBytes
    requires Distinct(k, Strip(q.text + [QUESTION_MARK]))
    ensures ScanCharacter(k, q, QUESTION_MARK).Continue? && Complete(k, ScanCharacter(k, q, QUESTION_MARK).scan)
  {
    StripAppendVisible(q.text, QUESTION_MARK);
  }

  lemma FinishWithLetter(k: Context, q: Scan, letter: Code) returns (body: Text)
    requires WellFormed(q) && Plain(q) && q.textBytes < k.maxBytes - 1 && 0x61 <= letter <= 0x7A
    requires TrimLeft(q.text) + [letter, QUESTION_MARK] !in [k.goal] + k.taken
    ensures var r := ScanAll(k, q, body); r.Continue? && Complete(k, r.scan)
    ensures AllPrintable(body)
  {
    var next := q.(text := q.text + [letter], textBytes := q.textBytes + 1);
    StripAppendVisible(next.text, QUESTION_MARK);
    TrimLeftAppend(q.text, [letter]);
    assert Strip(next.text + [QUESTION_MARK]) == TrimLeft(q.text) + [letter, QUESTION_MARK];
    assert ([k.goal] + k.taken)[0] == k.goal;
    assert Distinct(k, Strip(next.text + [QUESTION_MARK]));
    assert ScanCharacter(k, q, letter) == Continue(next);
    ScanOne(k, q, letter);
    FinishWithMark(k, next);
    ScanOne(k, next, QUESTION_MARK);
    ScanAllConcat(k, q, [letter], [QUESTION_MARK]);
    body := [letter] + [QUESTION_MARK];
  }

  lemma FinishPlain(k: Context, q: Scan) returns (body: Text)
    requires WellFormed(q) && Plain(q) && TextCanFinish(k, q.text, q.textBytes) && |k.taken| <= 3
    ensures var r := ScanAll(k, q, body); r.Continue? && Complete(k, r.scan)
    ensures AllPrintable(body)
  {
    if Acceptable(k, Strip(q.text)) {
      body := [];
    } else if q.textBytes == k.maxBytes - 1 {
      FinishWithMark(k, q);
      ScanOne(k, q, QUESTION_MARK);
      body := [QUESTION_MARK];
    } else {
      var base := TrimLeft(q.text);
      var i := FreeLetter(base, [k.goal] + k.taken, 5);
      var letter: Code := 0x61 + i;
      body := FinishWithLetter(k, q, letter);
    }
  }

  lemma SpellUnit(digits: Text, unit: Code) returns (full: Text)
    requires AllHex(digits) && |digits| <= 4 && StartsWith(digits, unit)
    ensures FourHex(full) && full[..|digits|] == digits && HexNumber(full) == unit
    decreases 4 - |digits|
  {
    if |digits| == 4 {
      full := digits;
    } else {
      var c := NextDigit(digits, unit);
      full := SpellUnit(digits + [c], unit);
      assert full[..|digits|] == full[..|digits| + 1][..|digits|];
    }
  }

  /** From a state with no escape open but perhaps half a pair read. */
  lemma FinishHalf(k: Context, q: Scan) returns (body: Text)
    requires ScanAlive(k, q) && q.escape.NoEscape? && |k.taken| <= 3
    ensures var r := ScanAll(k, q, body); r.Continue? && Complete(k, r.scan)
    ensures AllPrintable(body)
  {
    match q.high {
      case None => body := FinishPlain(k, q);
      case Some(h) =>
        var unit := UnicodePrefixSound(k, q, []);
        var full := SpellUnit([], unit);
        EscapeForward(k, q, full);
        var next := FinishUnit(k, q, unit).scan;
        var rest := FinishPlain(k, next);
        ScanAllConcat(k, q, [BACKSLASH, 0x75] + full, rest);
        body := [BACKSLASH, 0x75] + full + rest;
    }
  }

  lemma UnitStaysAlive(k: Context, q: Scan, unit: Code)
    requires ScanAlive(k, q) && UnitViable(k, q, unit)
    ensures var r := FinishUnit(k, q, unit); r.Continue? && r.scan.escape.NoEscape? && ScanAlive(k, r.scan)
  {
    if q.high.None? && IsHighSurrogate(unit) {
      var low: Code :| IsLowSurrogate(low) && Append(k, q, Combine(unit, low)).Continue?;
      var half := q.(escape := NoEscape, high := Some(unit));
      assert Append(k, half, Combine(unit, low)).Continue?;
      assert StartsWith([], low);
      UnicodePrefixComplete(k, half, [], low);
    }
  }

  lemma FinishHex(k: Context, q: Scan) returns (body: Text)
    requires ScanAlive(k, q) && q.escape.UnicodeEscape? && |k.taken| <= 3
    ensures var r := ScanAll(k, q, body); r.Continue? && Complete(k, r.scan)
    ensures AllPrintable(body)
  {
    var unit := UnicodePrefixSound(k, q, q.escape.digits);
    var full := SpellUnit(q.escape.digits, unit);
    HexForward(k, q, full);
    var next := FinishUnit(k, q, unit).scan;
    UnitStaysAlive(k, q, unit);
    var rest := FinishHalf(k, next);
    ScanAllConcat(k, q, full[|q.escape.digits|..], rest);
    body := full[|q.escape.digits|..] + rest;
  }

  /** From every live scan, mid-escape and half a surrogate pair included, some characters complete the question. */
  lemma FinishQuestion(k: Context, q: Scan) returns (body: Text)
    requires ScanAlive(k, q) && |k.taken| <= 3
    ensures var r := ScanAll(k, q, body); r.Continue? && Complete(k, r.scan)
    ensures AllPrintable(body)
  {
    match q.escape {
      case NoEscape => body := FinishHalf(k, q);
      case UnicodeEscape(_) => body := FinishHex(k, q);
      case Backslash =>
        var next := q.(escape := UnicodeEscape([]));
        SameLookahead(k, q, next, []);
        assert ScanCharacter(k, q, 0x75) == Continue(next);
        var rest := FinishHex(k, next);
        ScanOne(k, q, 0x75);
        ScanAllConcat(k, q, [0x75], rest);
        body := [0x75] + rest;
    }
  }
}
