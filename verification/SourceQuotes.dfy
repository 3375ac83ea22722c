/**
 A table of quotable source strings, kept as sorted JSON lexemes. The parser state narrows an index window by
 bisection instead of walking a trie; these proofs tie the window to a plain prefix filter.
 */
module SourceQuotes {
  import opened Unicode
  import opened JsonText

  // Lexicographic order on code points, as Python compares strings

  predicate Less(a: Text, b: Text) {
    if a == [] then b != []
    else if b == [] then false
    else if a[0] != b[0] then a[0] < b[0]
    else Less(a[1..], b[1..])
  }

  predicate AtMost(a: Text, b: Text) {
    !Less(b, a)
  }

  lemma {:induction false} LessIsTotal(a: Text, b: Text)
    ensures Less(a, b) || a == b || Less(b, a)
    ensures !(Less(a, b) && Less(b, a))
    ensures !Less(a, a)
    decreases |a|
  {
    if a == [] {
    } else {
      LessIsTotal(a[1..], a[1..]);
      if b != [] {
        LessIsTotal(a[1..], b[1..]);
        assert a == [a[0]] + a[1..] && b == [b[0]] + b[1..];
      }
    }
  }

  lemma {:induction false} LessIsTransitive(a: Text, b: Text, c: Text)
    requires Less(a, b) && Less(b, c)
    ensures Less(a, c)
    decreases |a|
  {
    if a == [] || a[0] != b[0] || b[0] != c[0] {
    } else {
      LessIsTransitive(a[1..], b[1..], c[1..]);
    }
  }

  lemma AtMostIsTransitive(a: Text, b: Text, c: Text)
    requires AtMost(a, b) && AtMost(b, c)
    ensures AtMost(a, c)
  {
    LessIsTotal(a, b);
    LessIsTotal(b, c);
    LessIsTotal(a, c);
    if Less(a, b) && Less(b, c) {
      LessIsTransitive(a, b, c);
    }
  }

  // The exclusive upper bound of all strings with a prefix

  predicate AllTop(t: Text) {
    forall i :: 0 <= i < |t| ==> t[i] == 0x10FFFF
  }

  /** Drop trailing U+10FFFF and bump the last remaining code point. */
  function Upper(prefix: Text): (u: Text)
    requires !AllTop(prefix)
  {
    var last := |prefix| - 1;
    if prefix[last] == 0x10FFFF then
      assert prefix == prefix[..last] + [prefix[last]];
      Upper(prefix[..last])
    else prefix[..last] + [prefix[last] + 1]
  }

  lemma {:induction false} UpperFirst(prefix: Text)
    requires |prefix| > 1 && !AllTop(prefix[1..])
    ensures !AllTop(prefix) && Upper(prefix) == [prefix[0]] + Upper(prefix[1..])
    decreases |prefix|
  {
    var last := |prefix| - 1;
    var tail := prefix[1..];
    assert tail[last - 1] == prefix[last];
    assert exists i :: 0 <= i < |tail| && tail[i] != 0x10FFFF;
    var i :| 0 <= i < |tail| && tail[i] != 0x10FFFF;
    assert prefix[i + 1] != 0x10FFFF;
    assert tail[..last - 1] == prefix[..last][1..];
    if prefix[last] != 0x10FFFF {
    } else {
      assert i < last - 1;
      assert prefix[..last][1..][i] != 0x10FFFF;
      UpperFirst(prefix[..last]);
    }
  }

  lemma {:induction false} UpperOfTopTail(prefix: Text)
    requires prefix != [] && prefix[0] != 0x10FFFF && AllTop(prefix[1..])
    ensures !AllTop(prefix) && Upper(prefix) == [prefix[0] + 1]
    decreases |prefix|
  {
    var last := |prefix| - 1;
    if last == 0 {
    } else {
      assert prefix[1..][last - 1] == 0x10FFFF;
      assert prefix[..last][1..] == prefix[1..][..last - 1];
      UpperOfTopTail(prefix[..last]);
    }
  }

  lemma TopPrefixDominates(prefix: Text, t: Text)
    requires AllTop(prefix)
    ensures AtMost(prefix, t) <==> prefix <= t
    decreases |prefix|
  {
    if prefix == [] || t == [] || t[0] != prefix[0] {
    } else {
      assert prefix[1..] <= t[1..] <==> prefix <= t by {
        assert t == [t[0]] + t[1..] && prefix == [prefix[0]] + prefix[1..];
      }
      TopPrefixDominates(prefix[1..], t[1..]);
    }
  }

  /** The half-open interval [prefix, upper) is exactly the set of strings that start with the prefix. */
  lemma {:induction false} PrefixInterval(prefix: Text, t: Text)
    requires !AllTop(prefix)
    ensures prefix <= t <==> AtMost(prefix, t) && Less(t, Upper(prefix))
    decreases |prefix|
  {
    if AllTop(prefix[1..]) {
      assert prefix[0] != 0x10FFFF by {
        var i :| 0 <= i < |prefix| && prefix[i] != 0x10FFFF;
        assert i > 0 ==> prefix[1..][i - 1] == prefix[i];
      }
      UpperOfTopTail(prefix);
      if t != [] && t[0] == prefix[0] {
        TopPrefixDominates(prefix[1..], t[1..]);
        assert t == [t[0]] + t[1..] && prefix == [prefix[0]] + prefix[1..];
      }
    } else {
      UpperFirst(prefix);
      if t != [] && t[0] == prefix[0] {
        PrefixInterval(prefix[1..], t[1..]);
        assert t == [t[0]] + t[1..] && prefix == [prefix[0]] + prefix[1..];
        assert Upper(prefix)[1..] == Upper(prefix[1..]);
      }
    }
  }

  // JSON lexemes, as json.dumps writes them without ASCII escaping

  /** Two escapes agree on a common text only if they are the same escape. */
  lemma EscapedIsPrefixFree(a: Code, b: Code, x: Text, y: Text)
    requires Escaped(a) + x <= Escaped(b) + y
    ensures a == b && x <= y
  {
    var left, right := Escaped(a) + x, Escaped(b) + y;
    assert left[0] == right[0];
    if left[0] == BACKSLASH {
      assert left[1] == right[1];
      if left[1] == 0x75 {
        assert left[4] == right[4] && left[5] == right[5];
      }
    }
    var n := |Escaped(a)|;
    assert left[n..] == x && right[n..] == y;
    assert left[n..] <= right[n..];
  }

  lemma QuoteFirstIffEmpty(t: Text)
    ensures (EscapeAll(t) + [QUOTE])[0] == QUOTE <==> t == []
  {
    if t != [] {
      assert (EscapeAll(t) + [QUOTE])[0] == Escaped(t[0])[0];
    }
  }

  lemma {:induction false} EscapesArePrefixFree(a: Text, b: Text)
    requires EscapeAll(a) + [QUOTE] <= EscapeAll(b) + [QUOTE]
    ensures a == b
    decreases |a|
  {
    QuoteFirstIffEmpty(a);
    QuoteFirstIffEmpty(b);
    assert (EscapeAll(a) + [QUOTE])[0] == (EscapeAll(b) + [QUOTE])[0];
    if a == [] {
    } else {
      assert EscapeAll(a) + [QUOTE] == Escaped(a[0]) + (EscapeAll(a[1..]) + [QUOTE]);
      assert EscapeAll(b) + [QUOTE] == Escaped(b[0]) + (EscapeAll(b[1..]) + [QUOTE]);
      EscapedIsPrefixFree(a[0], b[0], EscapeAll(a[1..]) + [QUOTE], EscapeAll(b[1..]) + [QUOTE]);
      EscapesArePrefixFree(a[1..], b[1..]);
      assert a == [a[0]] + a[1..] && b == [b[0]] + b[1..];
    }
  }

  /** No lexeme is a prefix of another value's lexeme; in particular the encoding is injective. */
  lemma LexemesArePrefixFree(a: Text, b: Text)
    requires Dumps(a) <= Dumps(b)
    ensures a == b
  {
    assert Dumps(a) == [QUOTE] + (EscapeAll(a) + [QUOTE]) && Dumps(b) == [QUOTE] + (EscapeAll(b) + [QUOTE]);
    assert Dumps(a)[1..] == EscapeAll(a) + [QUOTE] && Dumps(b)[1..] == EscapeAll(b) + [QUOTE];
    assert Dumps(a)[1..] <= Dumps(b)[1..];
    EscapesArePrefixFree(a, b);
  }

  // The table

  datatype Table = Table(lexemes: seq<Text>, values: seq<Text>)

  predicate Sorted(lexemes: seq<Text>) {
    forall i, j :: 0 <= i < j < |lexemes| ==> AtMost(lexemes[i], lexemes[j])
  }

  /** A table of `values`: their lexemes in order, each beside its original value. */
  ghost predicate TableOf(t: Table, values: seq<Text>) {
    && values != []
    && |t.lexemes| == |t.values|
    && (forall i :: 0 <= i < |t.lexemes| ==> t.lexemes[i] == Dumps(t.values[i]))
    && Sorted(t.lexemes)
    && multiset(t.values) == multiset(values)
  }

  /** A value that may be quoted: no NUL, no surrogate, not blank, at most 128 bytes. */
  predicate ValidValue(value: Text) {
    && (forall i :: 0 <= i < |value| ==> value[i] != 0 && !(0xD800 <= value[i] <= 0xDFFF))
    && (exists i :: 0 <= i < |value| && !IsSpace(value[i]))
    && Bytes(value) <= 128
  }

  /** How it is checked. */
  predicate IsQuotable(value: Text) {
    && Strip(value) != [] && 0 !in value
    && (forall i :: 0 <= i < |value| ==> !IsSurrogate(value[i]))
    && 1 <= Bytes(value) <= 128
  }

  lemma QuotableIsValid(value: Text)
    ensures IsQuotable(value) <==> ValidValue(value)
  {
    StripIsEmpty(value);
  }

  function TotalBytes(values: seq<Text>): (n: nat) {
    if values == [] then 0 else TotalBytes(values[..|values| - 1]) + Bytes(values[|values| - 1])
  }

  predicate ValidValues(values: seq<Text>) {
    && 1 <= |values| <= 65536
    && (forall i :: 0 <= i < |values| ==> ValidValue(values[i]))
    && TotalBytes(values) <= 8 * 1024 * 1024
  }

  function Lexemes(values: seq<Text>): (ls: seq<Text>)
    ensures |ls| == |values|
  {
    seq(|values|, i requires 0 <= i < |values| => Dumps(values[i]))
  }

  function Insert(values: seq<Text>, value: Text): (r: seq<Text>) {
    if values == [] then [value]
    else if Less(Dumps(values[0]), Dumps(value)) then [values[0]] + Insert(values[1..], value)
    else [value] + values
  }

  lemma ConsKeepsOrder(first: Text, rest: seq<Text>)
    requires Sorted(Lexemes(rest))
    requires forall j :: 0 <= j < |rest| ==> AtMost(Dumps(first), Dumps(rest[j]))
    ensures Sorted(Lexemes([first] + rest))
  {
    var ls := Lexemes([first] + rest);
    forall i, j | 0 <= i < j < |ls| ensures AtMost(ls[i], ls[j]) {
      assert ls[j] == Dumps(rest[j - 1]);
      if i > 0 {
        assert Lexemes(rest)[i - 1] == ls[i] && Lexemes(rest)[j - 1] == ls[j];
      }
    }
  }

  lemma {:induction false} InsertMember(values: seq<Text>, value: Text, j: nat)
    requires j < |Insert(values, value)|
    ensures || Insert(values, value)[j] == value
            || exists i :: 0 <= i < |values| && Lexemes(values)[i] == Dumps(Insert(values, value)[j])
  {
    if values != [] && Less(Dumps(values[0]), Dumps(value)) {
      if j == 0 {
        assert Lexemes(values)[0] == Dumps(values[0]);
      } else {
        InsertMember(values[1..], value, j - 1);
        if i :| 0 <= i < |values[1..]| && Lexemes(values[1..])[i] == Dumps(Insert(values[1..], value)[j - 1]) {
          assert Lexemes(values)[i + 1] == Lexemes(values[1..])[i];
        }
      }
    } else if values != [] && j > 0 {
      assert Lexemes(values)[j - 1] == Dumps(values[j - 1]);
    }
  }

  lemma {:induction false} InsertKeepsOrder(values: seq<Text>, value: Text)
    requires Sorted(Lexemes(values))
    ensures Sorted(Lexemes(Insert(values, value)))
    ensures multiset(Insert(values, value)) == multiset(values) + multiset{value}
  {
    if values == [] {
    } else {
      var rest := values[1..];
      assert values == [values[0]] + rest;
      assert forall i :: 0 <= i < |rest| ==> Lexemes(rest)[i] == Lexemes(values)[i + 1];
      InsertKeepsOrder(rest, value);
      var ls := Lexemes(values);
      if Less(Dumps(values[0]), Dumps(value)) {
        var r := Insert(rest, value);
        LessIsTotal(Dumps(values[0]), Dumps(value));
        forall j | 0 <= j < |r| ensures AtMost(Dumps(values[0]), Dumps(r[j])) {
          InsertMember(rest, value, j);
          assert ls[0] == Dumps(values[0]);
        }
        ConsKeepsOrder(values[0], r);
      } else {
        forall j | 0 <= j < |values| ensures AtMost(Dumps(value), Dumps(values[j])) {
          assert ls[j] == Dumps(values[j]) && ls[0] == Dumps(values[0]);
          LessIsTotal(ls[0], ls[0]);
          assert AtMost(ls[0], ls[j]);
          AtMostIsTransitive(Dumps(value), ls[0], ls[j]);
        }
        ConsKeepsOrder(value, values);
      }
    }
  }

  function SortByLexeme(values: seq<Text>): (r: seq<Text>) {
    if values == [] then [] else Insert(SortByLexeme(values[1..]), values[0])
  }

  lemma {:induction false} SortIsOrdered(values: seq<Text>)
    ensures Sorted(Lexemes(SortByLexeme(values)))
    ensures multiset(SortByLexeme(values)) == multiset(values)
  {
    if values == [] {
    } else {
      SortIsOrdered(values[1..]);
      InsertKeepsOrder(SortByLexeme(values[1..]), values[0]);
      assert values == [values[0]] + values[1..];
    }
  }

  lemma {:induction false} TotalGrows(values: seq<Text>, n: nat)
    requires n <= |values|
    ensures TotalBytes(values[..n]) <= TotalBytes(values)
    decreases |values| - n
  {
    if n < |values| {
      TotalGrows(values, n + 1);
      assert values[..n + 1][..n] == values[..n];
    } else {
      assert values[..n] == values;
    }
  }

  /** Checks and sorts the values; refuses exactly the lists that break a bound. */
  method BuildTable(values: seq<Text>) returns (r: Option<Table>)
    ensures r.Some? <==> ValidValues(values)
    ensures r.Some? ==> TableOf(r.value, values)
  {
    if |values| < 1 || |values| > 65536 {
      return None;
    }
    var total := 0;
    for i := 0 to |values|
      invariant total == TotalBytes(values[..i]) <= 8 * 1024 * 1024
      invariant forall j :: 0 <= j < i ==> ValidValue(values[j])
    {
      assert values[..i + 1][..i] == values[..i];
      TotalGrows(values, i + 1);
      QuotableIsValid(values[i]);
      if !IsQuotable(values[i]) {
        return None;
      }
      total := total + Bytes(values[i]);
      if total > 8 * 1024 * 1024 {
        return None;
      }
    }
    assert values[..|values|] == values;
    var sorted := SortByLexeme(values);
    SortIsOrdered(values);
    r := Some(Table(Lexemes(sorted), sorted));
  }

  // Bisection

  lemma BelowStaysBelow(lexemes: seq<Text>, key: Text, mid: nat)
    requires mid < |lexemes| && Sorted(lexemes) && Less(lexemes[mid], key)
    ensures forall i :: 0 <= i <= mid ==> Less(lexemes[i], key)
  {
    forall i | 0 <= i < mid ensures Less(lexemes[i], key) {
      LessIsTotal(lexemes[i], lexemes[mid]);
      if Less(lexemes[i], lexemes[mid]) {
        LessIsTransitive(lexemes[i], lexemes[mid], key);
      }
    }
  }

  lemma AboveStaysAbove(lexemes: seq<Text>, key: Text, mid: nat)
    requires mid < |lexemes| && Sorted(lexemes) && !Less(lexemes[mid], key)
    ensures forall i :: mid <= i < |lexemes| ==> !Less(lexemes[i], key)
  {
    forall i | mid < i < |lexemes| ensures !Less(lexemes[i], key) {
      if Less(lexemes[i], key) {
        BelowStaysBelow(lexemes, key, i);
      }
    }
  }

  /** The first index in the window whose lexeme is not less than the key. */
  function BisectLeft(lexemes: seq<Text>, key: Text, low: nat, high: nat): (r: nat)
    requires low <= high <= |lexemes| && Sorted(lexemes)
    ensures low <= r <= high
    ensures forall i :: low <= i < r ==> Less(lexemes[i], key)
    ensures forall i :: r <= i < high ==> !Less(lexemes[i], key)
    decreases high - low
  {
    if low == high then low
    else
      var mid := (low + high) / 2;
      if Less(lexemes[mid], key) then
        BelowStaysBelow(lexemes, key, mid);
        BisectLeft(lexemes, key, mid + 1, high)
      else
        AboveStaysAbove(lexemes, key, mid);
        BisectLeft(lexemes, key, low, mid)
  }

  // The parser state

  datatype QuoteState = QuoteState(
    table: Table, prefix: Text, low: nat, high: nat, seenOpeningQuote: bool, seenClosingQuote: bool, parsed: Text)

  function Start(table: Table): (s: QuoteState) {
    QuoteState(table, [], 0, |table.lexemes|, false, false, [])
  }

  predicate IsBlank(c: Code) {
    c == 0x20 || c == 0x09 || c == 0x0D || c == 0x0A
  }

  /** What every reachable state satisfies: the window is exactly the lexemes with the prefix, never empty, and the
      state is closed exactly when the prefix is a whole lexeme. */
  ghost predicate Valid(s: QuoteState, values: seq<Text>) {
    && TableOf(s.table, values)
    && s.low < s.high <= |s.table.lexemes|
    && (forall i :: 0 <= i < |s.table.lexemes| ==> (s.low <= i < s.high <==> s.prefix <= s.table.lexemes[i]))
    && (s.seenOpeningQuote <==> s.prefix != [])
    && (s.seenOpeningQuote ==> s.prefix[0] == QUOTE)
    && (s.seenClosingQuote <==> s.prefix in s.table.lexemes)
    && (s.seenClosingQuote ==> s.parsed in values && Dumps(s.parsed) == s.prefix)
  }

  predicate InRange(s: QuoteState) {
    && s.low <= s.high <= |s.table.lexemes| == |s.table.values|
    && Sorted(s.table.lexemes)
    && (s.seenOpeningQuote && !s.seenClosingQuote ==>
          forall i :: s.low <= i < s.high ==> |s.prefix| < |s.table.lexemes[i]|)
  }

  /** The next characters of the lexemes in the window. */
  function Allowed(s: QuoteState): (cs: set<Code>)
    requires InRange(s)
  {
    if s.seenClosingQuote then {}
    else if !s.seenOpeningQuote then {QUOTE, 0x20, 0x09, 0x0D, 0x0A}
    else set i | s.low <= i < s.high :: s.table.lexemes[i][|s.prefix|]
  }

  /** The state inside a string, closed if the first lexeme of the window is all of it. */
  function Opened(table: Table, prefix: Text, low: nat, high: nat): (s: QuoteState)
    requires low < |table.lexemes| == |table.values|
  {
    var closed := table.lexemes[low] == prefix;
    QuoteState(table, prefix, low, high, true, closed, if closed then table.values[low] else [])
  }

  function AddCharacter(s: QuoteState, c: Code): (r: Option<QuoteState>)
    requires InRange(s)
    requires s.seenOpeningQuote ==> s.prefix != [] && s.prefix[0] == QUOTE
    requires !s.seenOpeningQuote ==> s.prefix == []
  {
    if !s.seenOpeningQuote && IsBlank(c) then Some(s)
    else if c !in Allowed(s) then None
    else
      var prefix := s.prefix + [c];
      assert prefix[0] == QUOTE;
      var upper := Upper(prefix);
      var low := BisectLeft(s.table.lexemes, prefix, s.low, s.high);
      var high := BisectLeft(s.table.lexemes, upper, low, s.high);
      if low == |s.table.lexemes| then None // the source would fail with an index error; never reached
      else
        Some(Opened(s.table, prefix, low, high))
  }

  lemma ValidStaysInRange(s: QuoteState, values: seq<Text>)
    requires Valid(s, values)
    ensures InRange(s)
  {
    if s.seenOpeningQuote && !s.seenClosingQuote {
      forall i | s.low <= i < s.high ensures |s.prefix| < |s.table.lexemes[i]| {
        var l := s.table.lexemes[i];
        assert l in s.table.lexemes && s.prefix == l[..|s.prefix|];
        assert |s.prefix| == |l| ==> s.prefix == l;
      }
    }
  }

  /** What the index is an index for: the text still starts some lexeme. */
  predicate StartsLexeme(lexemes: seq<Text>, w: Text) {
    exists i :: 0 <= i < |lexemes| && w <= lexemes[i]
  }

  /** One more character still starts a lexeme just when it is that lexeme's next one. */
  lemma NextLetter(prefix: Text, c: Code, lexeme: Text)
    ensures prefix + [c] <= lexeme <==> prefix <= lexeme && |prefix| < |lexeme| && lexeme[|prefix|] == c
  {
    if prefix + [c] <= lexeme {
      assert (prefix + [c])[|prefix|] == c;
      assert prefix == (prefix + [c])[..|prefix|];
    }
  }

  lemma AllowedStarts(s: QuoteState, values: seq<Text>, c: Code)
    requires Valid(s, values) && InRange(s) && s.seenOpeningQuote && c in Allowed(s)
    ensures StartsLexeme(s.table.lexemes, s.prefix + [c])
  {
    var i :| s.low <= i < s.high && s.table.lexemes[i][|s.prefix|] == c;
    NextLetter(s.prefix, c, s.table.lexemes[i]);
  }

  lemma ClosedHasNoExtension(s: QuoteState, values: seq<Text>, c: Code, i: nat)
    requires Valid(s, values) && s.seenClosingQuote && i < |s.table.lexemes|
    ensures !(s.prefix + [c] <= s.table.lexemes[i])
  {
    if s.prefix + [c] <= s.table.lexemes[i] {
      assert Dumps(s.parsed) <= Dumps(s.table.values[i]);
      LexemesArePrefixFree(s.parsed, s.table.values[i]);
    }
  }

  lemma StartsAllowed(s: QuoteState, values: seq<Text>, c: Code, i: nat)
    requires Valid(s, values) && InRange(s) && s.seenOpeningQuote
    requires i < |s.table.lexemes| && s.prefix + [c] <= s.table.lexemes[i]
    ensures c in Allowed(s)
  {
    NextLetter(s.prefix, c, s.table.lexemes[i]);
    if s.seenClosingQuote {
      ClosedHasNoExtension(s, values, c, i);
    }
  }

  /** While a string is open, the allowed characters are exactly those that extend the prefix towards some lexeme. */
  lemma AllowedIsNextCharacters(s: QuoteState, values: seq<Text>, c: Code)
    requires Valid(s, values) && s.seenOpeningQuote
    ensures InRange(s)
    ensures c in Allowed(s) <==> StartsLexeme(s.table.lexemes, s.prefix + [c])
  {
    ValidStaysInRange(s, values);
    if c in Allowed(s) {
      AllowedStarts(s, values, c);
    }
    if i :| 0 <= i < |s.table.lexemes| && s.prefix + [c] <= s.table.lexemes[i] {
      StartsAllowed(s, values, c, i);
    }
  }

  /** The bisected window of the extended prefix. */
  lemma WindowIsExact(s: QuoteState, values: seq<Text>, prefix: Text, low: nat, high: nat)
    requires Valid(s, values) && prefix != [] && prefix[0] == QUOTE && s.prefix <= prefix
    requires !AllTop(prefix) && low == BisectLeft(s.table.lexemes, prefix, s.low, s.high)
    requires high == BisectLeft(s.table.lexemes, Upper(prefix), low, s.high)
    ensures forall i :: 0 <= i < |s.table.lexemes| ==> (low <= i < high <==> prefix <= s.table.lexemes[i])
  {
    forall i | 0 <= i < |s.table.lexemes| ensures low <= i < high <==> prefix <= s.table.lexemes[i] {
      PrefixInterval(prefix, s.table.lexemes[i]);
      if prefix <= s.table.lexemes[i] {
        assert s.prefix <= s.table.lexemes[i];
      }
    }
  }

  lemma NextExists(s: QuoteState, values: seq<Text>, c: Code) returns (i: nat)
    requires Valid(s, values) && InRange(s) && c in Allowed(s) && (!s.seenOpeningQuote ==> !IsBlank(c))
    ensures i < |s.table.lexemes| && s.prefix + [c] <= s.table.lexemes[i] && (s.prefix + [c])[0] == QUOTE
  {
    if s.seenOpeningQuote {
      AllowedIsNextCharacters(s, values, c);
      i :| 0 <= i < |s.table.lexemes| && s.prefix + [c] <= s.table.lexemes[i];
    } else {
      i := 0;
      assert s.table.lexemes[0][0] == QUOTE;
    }
  }

  /** The state after a step closes exactly on a whole lexeme, and then holds that lexeme's value. */
  lemma ClosingIsExact(table: Table, values: seq<Text>, prefix: Text, low: nat, high: nat)
    requires TableOf(table, values) && low < high <= |table.lexemes|
    requires forall i :: 0 <= i < |table.lexemes| ==> (low <= i < high <==> prefix <= table.lexemes[i])
    ensures table.lexemes[low] == prefix <==> prefix in table.lexemes
    ensures table.values[low] in values && Dumps(table.values[low]) == table.lexemes[low]
  {
    assert table.values[low] in multiset(table.values);
    if k :| 0 <= k < |table.lexemes| && table.lexemes[k] == prefix {
      assert prefix <= table.lexemes[low];
      assert Dumps(table.values[k]) <= Dumps(table.values[low]);
      LexemesArePrefixFree(table.values[k], table.values[low]);
    }
  }

  lemma OpenedIsValid(table: Table, values: seq<Text>, prefix: Text, low: nat, high: nat)
    requires TableOf(table, values) && low < high <= |table.lexemes| && prefix != [] && prefix[0] == QUOTE
    requires forall i :: 0 <= i < |table.lexemes| ==> (low <= i < high <==> prefix <= table.lexemes[i])
    ensures Valid(Opened(table, prefix, low, high), values)
  {
    ClosingIsExact(table, values, prefix, low, high);
  }

  lemma AcceptedKeepsValid(s: QuoteState, values: seq<Text>, c: Code)
    requires Valid(s, values) && InRange(s) && c in Allowed(s) && (s.seenOpeningQuote || !IsBlank(c))
    ensures AddCharacter(s, c).Some? && Valid(AddCharacter(s, c).value, values)
    ensures AddCharacter(s, c).value.prefix == s.prefix + [c] && AddCharacter(s, c).value.table == s.table
  {
    var prefix := s.prefix + [c];
    var i := NextExists(s, values, c);
    var low := BisectLeft(s.table.lexemes, prefix, s.low, s.high);
    var high := BisectLeft(s.table.lexemes, Upper(prefix), low, s.high);
    WindowIsExact(s, values, prefix, low, high);
    assert low <= i < high;
    OpenedIsValid(s.table, values, prefix, low, high);
    assert AddCharacter(s, c) == Some(Opened(s.table, prefix, low, high));
  }

  /** Every accepted character keeps the window exact; nothing is indexed out of range. */
  lemma StepKeepsValid(s: QuoteState, values: seq<Text>, c: Code)
    requires Valid(s, values)
    ensures InRange(s)
    ensures AddCharacter(s, c).Some? ==> Valid(AddCharacter(s, c).value, values)
    ensures AddCharacter(s, c).Some? <==> (!s.seenOpeningQuote && IsBlank(c)) || c in Allowed(s)
  {
    ValidStaysInRange(s, values);
    if c in Allowed(s) && (s.seenOpeningQuote || !IsBlank(c)) {
      AcceptedKeepsValid(s, values, c);
    }
  }

  /** A step inside the string goes on just while the longer prefix starts some lexeme. */
  lemma StepInside(s: QuoteState, values: seq<Text>, c: Code)
    requires Valid(s, values) && s.seenOpeningQuote
    ensures InRange(s) && (AddCharacter(s, c).Some? <==> StartsLexeme(s.table.lexemes, s.prefix + [c]))
    ensures AddCharacter(s, c).Some? ==> Valid(AddCharacter(s, c).value, values)
    ensures AddCharacter(s, c).Some? ==>
      AddCharacter(s, c).value.prefix == s.prefix + [c] && AddCharacter(s, c).value.table == s.table
  {
    AllowedIsNextCharacters(s, values, c);
    if c in Allowed(s) {
      AcceptedKeepsValid(s, values, c);
    }
  }

  // Runs

  function Feed(s: QuoteState, values: seq<Text>, w: Text): (r: Option<QuoteState>)
    requires Valid(s, values)
    ensures r.Some? ==> Valid(r.value, values)
    decreases |w|
  {
    if w == [] then Some(s)
    else
      StepKeepsValid(s, values, w[0]);
      match AddCharacter(s, w[0])
      case Some(next) => Feed(next, values, w[1..])
      case None => None
  }

  function SkipBlanks(w: Text): (r: Text) {
    if w != [] && IsBlank(w[0]) then SkipBlanks(w[1..]) else w
  }

  lemma StartIsValid(table: Table, values: seq<Text>)
    requires TableOf(table, values)
    ensures Valid(Start(table), values)
  {
    assert |multiset(table.values)| == |table.values| && |multiset(values)| == |values|;
  }

  lemma ShorterStarts(lexemes: seq<Text>, a: Text, b: Text)
    requires StartsLexeme(lexemes, a + b)
    ensures StartsLexeme(lexemes, a)
  {
    var i :| 0 <= i < |lexemes| && a + b <= lexemes[i];
    assert a <= a + b;
  }

  lemma {:induction false} FeedOpened(s: QuoteState, values: seq<Text>, w: Text)
    requires Valid(s, values) && s.seenOpeningQuote
    ensures Feed(s, values, w).Some? <==> StartsLexeme(s.table.lexemes, s.prefix + w)
    ensures Feed(s, values, w).Some? ==> Feed(s, values, w).value.prefix == s.prefix + w
                                         && Feed(s, values, w).value.table == s.table
    decreases |w|
  {
    if w == [] {
      assert s.prefix + w == s.prefix;
      assert s.prefix <= s.table.lexemes[s.low];
    } else {
      var longer := s.prefix + [w[0]];
      StepInside(s, values, w[0]);
      assert s.prefix + w == longer + w[1..];
      if AddCharacter(s, w[0]).Some? {
        FeedOpened(AddCharacter(s, w[0]).value, values, w[1..]);
      } else if StartsLexeme(s.table.lexemes, longer + w[1..]) {
        ShorterStarts(s.table.lexemes, longer, w[1..]);
      }
    }
  }

  lemma OnlyQuotesStart(table: Table, values: seq<Text>, w: Text)
    requires TableOf(table, values) && w != [] && w[0] != QUOTE
    ensures !StartsLexeme(table.lexemes, w)
  {
    forall i | 0 <= i < |table.lexemes| ensures !(w <= table.lexemes[i]) {
      assert table.lexemes[i][0] == QUOTE;
    }
  }

  lemma FeedQuote(table: Table, values: seq<Text>, w: Text)
    requires TableOf(table, values) && Valid(Start(table), values) && w != [] && w[0] == QUOTE
    ensures Feed(Start(table), values, w).Some? <==> StartsLexeme(table.lexemes, w)
    ensures Feed(Start(table), values, w).Some? ==> Feed(Start(table), values, w).value.prefix == w
                                                    && Feed(Start(table), values, w).value.table == table
  {
    var s := Start(table);
    ValidStaysInRange(s, values);
    AcceptedKeepsValid(s, values, QUOTE);
    var next := AddCharacter(s, QUOTE).value;
    FeedOpened(next, values, w[1..]);
    assert next.prefix + w[1..] == w;
  }

  lemma {:induction false} FeedReads(table: Table, values: seq<Text>, w: Text)
    requires TableOf(table, values) && Valid(Start(table), values)
    ensures Feed(Start(table), values, w).Some? <==> StartsLexeme(table.lexemes, SkipBlanks(w))
    ensures Feed(Start(table), values, w).Some? ==> Feed(Start(table), values, w).value.prefix == SkipBlanks(w)
                                                    && Feed(Start(table), values, w).value.table == table
    decreases |w|
  {
    if w == [] {
      assert SkipBlanks(w) <= table.lexemes[0];
    } else if w[0] == QUOTE {
      FeedQuote(table, values, w);
    } else {
      StepKeepsValid(Start(table), values, w[0]);
      if IsBlank(w[0]) {
        FeedReads(table, values, w[1..]);
      } else {
        OnlyQuotesStart(table, values, w);
      }
    }
  }

  /** Index agrees with filter: after any input the window is exactly the lexemes that start with what was read, the
      input is accepted just while such a lexeme exists, and the string closes just on a whole lexeme, with its
      value. */
  lemma IndexAgreesWithFilter(table: Table, values: seq<Text>, w: Text)
    requires TableOf(table, values)
    ensures Valid(Start(table), values)
    ensures Feed(Start(table), values, w).Some? <==> StartsLexeme(table.lexemes, SkipBlanks(w))
    ensures Feed(Start(table), values, w).Some? ==>
              var s := Feed(Start(table), values, w).value;
              && s.low < s.high
              && (forall i :: 0 <= i < |table.lexemes| ==> (s.low <= i < s.high <==> SkipBlanks(w) <= table.lexemes[i]))
              && (s.seenClosingQuote <==> SkipBlanks(w) in table.lexemes)
              && (s.seenClosingQuote ==> s.parsed in values && Dumps(s.parsed) == SkipBlanks(w))
  {
    StartIsValid(table, values);
    FeedReads(table, values, w);
  }
}
