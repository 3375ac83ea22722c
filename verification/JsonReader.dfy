/**
 The strict reader of JSON texts: `json.loads` with repeated keys and named constants refused. It inverts the compact
 encoding, and what it reads is a value that can be written again.
 */
module JsonReader {
  import opened Unicode
  import opened Numerals
  import opened QuestionScanner
  import opened JsonText
  import opened JsonValues

  /** What the floating-point number nearest to a literal prints as. */
  type Printer = Text -> Text

  const COMMA: Code := 0x2C
  const COLON: Code := 0x3A
  const MINUS: Code := 0x2D
  const OPEN_LIST: Code := 0x5B
  const CLOSE_LIST: Code := 0x5D
  const OPEN_OBJECT: Code := 0x7B
  const CLOSE_OBJECT: Code := 0x7D
  const LETTER_U: Code := 0x75

  predicate IsBlank(c: Code) {
    c == 0x20 || c == 0x09 || c == 0x0A || c == 0x0D
  }

  function SkipBlanks(t: Text): (r: Text)
    ensures |r| <= |t| && (r == [] || !IsBlank(r[0]))
  {
    if t != [] && IsBlank(t[0]) then SkipBlanks(t[1..]) else t
  }

  // Strings

  /** Four hexadecimal digits. */
  function ReadUnit(t: Text): (r: Option<(Code, Text)>)
    ensures r.Some? ==> |r.value.1| < |t|
  {
    if |t| >= 4 && AllHex(t[..4]) then Some((HexNumber(t[..4]), t[4..])) else None
  }

  /** A code unit, together with the low half of a pair where one follows. */
  function ReadUnits(t: Text): (r: Option<(Code, Text)>)
    ensures r.Some? ==> |r.value.1| < |t|
  {
    match ReadUnit(t)
    case None => None
    case Some((unit, rest)) =>
      if IsHighSurrogate(unit) && [BACKSLASH, LETTER_U] <= rest then
        match ReadUnit(rest[2..])
        case None => None
        case Some((low, more)) => if IsLowSurrogate(low) then Some((Combine(unit, low), more)) else Some((unit, rest))
      else Some((unit, rest))
  }

  /** What follows a backslash. */
  function ReadEscape(t: Text): (r: Option<(Code, Text)>)
    ensures r.Some? ==> |r.value.1| < |t|
  {
    if t == [] then None
    else if t[0] == LETTER_U then ReadUnits(t[1..])
    else if ShortEscape(t[0]).Some? then Some((ShortEscape(t[0]).value, t[1..]))
    else None
  }

  /** The inside of a string and its closing quote. */
  function ReadChars(t: Text): (r: Option<(Text, Text)>)
    ensures r.Some? ==> |r.value.1| < |t|
    decreases |t|
  {
    if t == [] then None
    else if t[0] == QUOTE then Some(([], t[1..]))
    else
      var step := if t[0] == BACKSLASH then ReadEscape(t[1..]) else if t[0] < 0x20 then None else Some((t[0], t[1..]));
      match step
      case None => None
      case Some((c, rest)) =>
        match ReadChars(rest)
        case None => None
        case Some((more, end)) => Some(([c] + more, end))
  }

  // Numbers

  /** Where the digits from `i` on end. */
  function DigitsEnd(t: Text, i: nat): (j: nat)
    requires i <= |t|
    ensures i <= j <= |t|
    decreases |t| - i
  {
    if i < |t| && IsDigit(t[i]) then DigitsEnd(t, i + 1) else i
  }

  function IntegerEnd(t: Text): (j: nat)
    ensures j <= |t| && (j > 0 ==> t[0] == MINUS || IsDigit(t[0]))
  {
    var sign := if t != [] && t[0] == MINUS then 1 else 0;
    if sign == |t| then 0
    else if t[sign] == 0x30 then sign + 1
    else if IsDigit(t[sign]) then DigitsEnd(t, sign)
    else 0
  }

  /** A fraction from `i` on ends here; at `i` itself where there is none. */
  function FractionEnd(t: Text, i: nat): (j: nat)
    requires i <= |t|
    ensures i <= j <= |t|
  {
    if i < |t| && t[i] == 0x2E && DigitsEnd(t, i + 1) > i + 1 then DigitsEnd(t, i + 1) else i
  }

  function ExponentEnd(t: Text, i: nat): (j: nat)
    requires i <= |t|
    ensures i <= j <= |t|
  {
    if i < |t| && (t[i] == 0x65 || t[i] == 0x45) then
      var k := if i + 1 < |t| && (t[i + 1] == 0x2B || t[i + 1] == MINUS) then i + 2 else i + 1;
      if DigitsEnd(t, k) > k then DigitsEnd(t, k) else i
    else i
  }

  predicate IsTooLong(integer: Text) {
    |integer| > (if integer != [] && integer[0] == MINUS then MAX_DIGITS + 1 else MAX_DIGITS)
  }

  /** An integer prints as it is written, but for the sign of zero. */
  function PrintedInteger(integer: Text): (t: Text) {
    if integer == [MINUS, 0x30] then [0x30] else integer
  }

  function ReadNumber(printed: Printer, t: Text): (r: Option<(Json, Text)>)
    ensures r.Some? ==> |r.value.1| < |t|
  {
    var n := IntegerEnd(t);
    var m := ExponentEnd(t, FractionEnd(t, n));
    if n == 0 then None
    else if m > n then Some((Number(printed(t[..m])), t[m..]))
    else if IsTooLong(t[..n]) then None
    else Some((Number(PrintedInteger(t[..n])), t[n..]))
  }

  // Values

  predicate KeysDiffer(members: seq<(Text, Json)>) {
    forall i, j :: 0 <= i < j < |members| ==> members[i].0 != members[j].0
  }

  /** The hook that builds each object refuses exactly the repeated keys. */
  method Unique(members: seq<(Text, Json)>) returns (r: Option<map<Text, Json>>)
    ensures r.Some? <==> KeysDiffer(members)
    ensures r.Some? ==> forall key :: key in r.value <==> exists i :: 0 <= i < |members| && members[i].0 == key
    ensures r.Some? ==> forall i :: 0 <= i < |members| ==> r.value[members[i].0] == members[i].1
  {
    var built: map<Text, Json> := map[];
    for n := 0 to |members|
      invariant KeysDiffer(members[..n])
      invariant forall key :: key in built <==> exists i :: 0 <= i < n && members[i].0 == key
      invariant forall i :: 0 <= i < n ==> built[members[i].0] == members[i].1
    {
      if members[n].0 in built {
        return None;
      }
      built := built[members[n].0 := members[n].1];
      assert members[..n + 1] == members[..n] + [members[n]];
    }
    assert members[..|members|] == members;
    r := Some(built);
  }

  const NULL: Text := Ascii("null")
  const TRUE: Text := Ascii("true")
  const FALSE: Text := Ascii("false")

  function ReadValue(printed: Printer, t: Text): (r: Option<(Json, Text)>)
    ensures r.Some? ==> |r.value.1| < |t|
    decreases |t|, 1
  {
    if t == [] then None
    else if t[0] == QUOTE then
      match ReadChars(t[1..])
      case None => None
      case Some((text, rest)) => Some((String(text), rest))
    else if t[0] == OPEN_LIST then ReadList(printed, SkipBlanks(t[1..]))
    else if t[0] == OPEN_OBJECT then ReadObject(printed, SkipBlanks(t[1..]))
    else if NULL <= t then Some((Null, t[|NULL|..]))
    else if TRUE <= t then Some((Bool(true), t[|TRUE|..]))
    else if FALSE <= t then Some((Bool(false), t[|FALSE|..]))
    else ReadNumber(printed, t)
  }

  /** A list after its opening bracket. */
  function ReadList(printed: Printer, t: Text): (r: Option<(Json, Text)>)
    ensures r.Some? ==> |r.value.1| < |t|
    decreases |t|, 3
  {
    if t != [] && t[0] == CLOSE_LIST then Some((Array([]), t[1..]))
    else
      match ReadItems(printed, t)
      case None => None
      case Some((items, rest)) => Some((Array(items), rest))
  }

  /** One or more values separated by commas, and the closing bracket. */
  function ReadItems(printed: Printer, t: Text): (r: Option<(seq<Json>, Text)>)
    ensures r.Some? ==> |r.value.1| < |t|
    decreases |t|, 2
  {
    match ReadValue(printed, t)
    case None => None
    case Some((v, rest)) =>
      var after := SkipBlanks(rest);
      if after != [] && after[0] == CLOSE_LIST then Some(([v], after[1..]))
      else if after != [] && after[0] == COMMA then
        match ReadItems(printed, SkipBlanks(after[1..]))
        case None => None
        case Some((more, end)) => Some(([v] + more, end))
      else None
  }

  /** An object after its opening brace. */
  function ReadObject(printed: Printer, t: Text): (r: Option<(Json, Text)>)
    ensures r.Some? ==> |r.value.1| < |t|
    decreases |t|, 4
  {
    if t != [] && t[0] == CLOSE_OBJECT then Some((Object([]), t[1..]))
    else
      match ReadMembers(printed, t)
      case None => None
      case Some((members, rest)) => if KeysDiffer(members) then Some((Object(members), rest)) else None
  }

  /** A key, a colon and a value. */
  function ReadMember(printed: Printer, t: Text): (r: Option<((Text, Json), Text)>)
    ensures r.Some? ==> |r.value.1| < |t|
    decreases |t|, 2
  {
    if t == [] || t[0] != QUOTE then None
    else
      match ReadChars(t[1..])
      case None => None
      case Some((key, rest)) =>
        var after := SkipBlanks(rest);
        if after == [] || after[0] != COLON then None
        else
          match ReadValue(printed, SkipBlanks(after[1..]))
          case None => None
          case Some((v, end)) => Some(((key, v), end))
  }

  function ReadMembers(printed: Printer, t: Text): (r: Option<(seq<(Text, Json)>, Text)>)
    ensures r.Some? ==> |r.value.1| < |t|
    decreases |t|, 3
  {
    match ReadMember(printed, t)
    case None => None
    case Some((m, rest)) =>
      var after := SkipBlanks(rest);
      if after != [] && after[0] == CLOSE_OBJECT then Some(([m], after[1..]))
      else if after != [] && after[0] == COMMA then
        match ReadMembers(printed, SkipBlanks(after[1..]))
        case None => None
        case Some((more, end)) => Some(([m] + more, end))
      else None
  }

  /** One value and nothing else but blanks. */
  function Loads(printed: Printer, t: Text): (r: Option<Json>) {
    match ReadValue(printed, SkipBlanks(t))
    case None => None
    case Some((v, rest)) => if SkipBlanks(rest) == [] then Some(v) else None
  }

  // Values that come from Python

  predicate IsIntegerText(t: Text) {
    t != [] && IntegerEnd(t) == |t| && !IsTooLong(t) && t != [MINUS, 0x30]
  }

  predicate IsFloatText(t: Text) {
    0 < IntegerEnd(t) < |t| == ExponentEnd(t, FractionEnd(t, IntegerEnd(t)))
  }

  predicate IsInfinite(t: Text) {
    t == INFINITE || t == [MINUS] + INFINITE
  }

  /** The text of an integer, or of a floating-point number that prints as itself. */
  predicate IsNumberText(printed: Printer, t: Text) {
    IsIntegerText(t) || (IsFloatText(t) && printed(t) == t)
  }

  /** A value Python can hold: no object has a key twice, and every number is written as it prints. */
  predicate IsProper(printed: Printer, v: Json)
    decreases v
  {
    match v
    case Number(literal) => IsNumberText(printed, literal) || IsInfinite(literal)
    case Array(items) => forall i :: 0 <= i < |items| ==> IsProper(printed, items[i])
    case Object(members) =>
      KeysDiffer(members) && forall i :: 0 <= i < |members| ==> IsProper(printed, members[i].1)
    case _ => true
  }

  /** What the number at `t` prints as stands for that number. */
  predicate IsPrintedWell(printed: Printer, t: Text) {
    IsInfinite(printed(t)) || IsNumberText(printed, printed(t))
  }

  /** Printing is stable. */
  ghost predicate IsPrinter(printed: Printer) {
    forall t {:trigger IsPrintedWell(printed, t)} :: IsFloatText(t) ==> IsPrintedWell(printed, t)
  }

  /** A value Python can hold and encode. */
  ghost predicate IsPlain(printed: Printer, v: Json) {
    IsProper(printed, v) && IsFinite(v)
  }

  ghost predicate HoldsPlain(printed: Printer, v: Json) {
    forall i :: 0 <= i < Arity(v) ==> IsPlain(printed, Child(v, i))
  }

  lemma PlainHoldsPlain(printed: Printer, v: Json)
    requires IsPlain(printed, v)
    ensures HoldsPlain(printed, v)
  {}

  // Strings read back

  lemma OneMoreHex(t: Text, c: Code)
    requires AllHex(t) && |t| < 4 && IsHex(c)
    ensures HexNumber(t + [c]) == 16 * HexNumber(t) + HexValue(c)
  {
    assert (t + [c])[..|t|] == t;
  }

  lemma ControlNumber(c: Code)
    requires c < 0x20
    ensures var digits := [0x30, 0x30] + [HexDigit(c / 16)] + [HexDigit(c % 16)];
      |digits| == 4 && AllHex(digits) && HexNumber(digits) == c
  {
    OneMoreHex([], 0x30);
    OneMoreHex([0x30], 0x30);
    assert [] + [0x30] == [0x30] && [0x30] + [0x30] == [0x30, 0x30];
    OneMoreHex([0x30, 0x30], HexDigit(c / 16));
    OneMoreHex([0x30, 0x30] + [HexDigit(c / 16)], HexDigit(c % 16));
  }

  lemma UnitReadsBack(c: Code, rest: Text)
    requires c < 0x20
    ensures ReadUnits([0x30, 0x30, HexDigit(c / 16), HexDigit(c % 16)] + rest) == Some((c, rest))
  {
    var digits := [0x30, 0x30] + [HexDigit(c / 16)] + [HexDigit(c % 16)];
    ControlNumber(c);
    assert digits == [0x30, 0x30, HexDigit(c / 16), HexDigit(c % 16)];
    assert (digits + rest)[..4] == digits && (digits + rest)[4..] == rest;
  }

  /** One character read, and then the rest. */
  function Prepend(c: Code, r: Option<(Text, Text)>): (p: Option<(Text, Text)>) {
    match r
    case None => None
    case Some((more, end)) => Some(([c] + more, end))
  }

  lemma RawReads(c: Code, rest: Text)
    requires c >= 0x20 && c != QUOTE && c != BACKSLASH
    ensures ReadChars([c] + rest) == Prepend(c, ReadChars(rest))
  {
    assert ([c] + rest)[1..] == rest;
  }

  lemma EscapeReads(t: Text, c: Code, rest: Text)
    requires ReadEscape(t) == Some((c, rest))
    ensures ReadChars([BACKSLASH] + t) == Prepend(c, ReadChars(rest))
  {
    assert ([BACKSLASH] + t)[1..] == t;
  }

  lemma ShortReads(letter: Code, rest: Text)
    requires letter != LETTER_U && ShortEscape(letter).Some?
    ensures ReadEscape([letter] + rest) == Some((ShortEscape(letter).value, rest))
  {
    assert ([letter] + rest)[1..] == rest;
  }

  lemma ControlReads(c: Code, rest: Text)
    requires c < 0x20
    ensures ReadEscape([LETTER_U] + ([0x30, 0x30, HexDigit(c / 16), HexDigit(c % 16)] + rest)) == Some((c, rest))
  {
    var digits := [0x30, 0x30, HexDigit(c / 16), HexDigit(c % 16)];
    UnitReadsBack(c, rest);
    assert ([LETTER_U] + (digits + rest))[1..] == digits + rest;
  }

  lemma ShortEscapeReads(letter: Code, c: Code, rest: Text)
    requires letter != LETTER_U && ShortEscape(letter) == Some(c)
    ensures ReadChars([BACKSLASH, letter] + rest) == Prepend(c, ReadChars(rest))
  {
    ShortReads(letter, rest);
    EscapeReads([letter] + rest, c, rest);
    assert [BACKSLASH, letter] + rest == [BACKSLASH] + ([letter] + rest);
  }

  lemma ControlEscapeReads(c: Code, rest: Text)
    requires c < 0x20
    ensures ReadChars([BACKSLASH, LETTER_U, 0x30, 0x30, HexDigit(c / 16), HexDigit(c % 16)] + rest)
         == Prepend(c, ReadChars(rest))
  {
    var x, y := HexDigit(c / 16), HexDigit(c % 16);
    ControlReads(c, rest);
    EscapeReads([LETTER_U] + ([0x30, 0x30, x, y] + rest), c, rest);
    assert [BACKSLASH, LETTER_U, 0x30, 0x30, x, y] + rest == [BACKSLASH] + ([LETTER_U] + ([0x30, 0x30, x, y] + rest));
  }

  lemma EscapedReadsBack(c: Code, rest: Text)
    ensures ReadChars(Escaped(c) + rest) == Prepend(c, ReadChars(rest))
  {
    if Escaped(c) == [c] {
      RawReads(c, rest);
    } else if |Escaped(c)| == 2 {
      assert Escaped(c) == [BACKSLASH, Escaped(c)[1]];
      ShortEscapeReads(Escaped(c)[1], c, rest);
    } else {
      ControlEscapeReads(c, rest);
    }
  }

  /** Every text, whatever it holds, is read back from its spelling. */
  lemma {:induction false} TextReadsBack(value: Text, rest: Text)
    ensures ReadChars(EscapeAll(value) + ([QUOTE] + rest)) == Some((value, rest))
    decreases |value|
  {
    if value == [] {
      assert EscapeAll(value) + ([QUOTE] + rest) == [QUOTE] + rest;
    } else {
      var more := EscapeAll(value[1..]) + ([QUOTE] + rest);
      assert EscapeAll(value) + ([QUOTE] + rest) == Escaped(value[0]) + more;
      TextReadsBack(value[1..], rest);
      EscapedReadsBack(value[0], more);
      assert value == [value[0]] + value[1..];
    }
  }

  // Numbers read back

  /** What may come after a value in a compact encoding. */
  predicate Follows(rest: Text) {
    rest == [] || rest[0] == COMMA || rest[0] == CLOSE_LIST || rest[0] == CLOSE_OBJECT
  }

  lemma {:induction false} DigitsStop(t: Text, rest: Text, i: nat)
    requires Follows(rest) && i <= |t|
    ensures DigitsEnd(t + rest, i) == DigitsEnd(t, i)
    decreases |t| - i
  {
    if i == |t| || !IsDigit(t[i]) {
    } else {
      DigitsStop(t, rest, i + 1);
    }
  }

  lemma IntegerStops(t: Text, rest: Text)
    requires Follows(rest) && t != []
    ensures IntegerEnd(t + rest) == IntegerEnd(t)
  {
    DigitsStop(t, rest, if t[0] == MINUS then 1 else 0);
  }

  lemma FractionStops(t: Text, rest: Text, i: nat)
    requires Follows(rest) && i <= |t|
    ensures FractionEnd(t + rest, i) == FractionEnd(t, i)
  {
    if i < |t| {
      DigitsStop(t, rest, i + 1);
    }
  }

  lemma ExponentStops(t: Text, rest: Text, i: nat)
    requires Follows(rest) && i <= |t|
    ensures ExponentEnd(t + rest, i) == ExponentEnd(t, i)
  {
    if i < |t| {
      DigitsStop(t, rest, if i + 1 < |t| && (t[i + 1] == 0x2B || t[i + 1] == MINUS) then i + 2 else i + 1);
    }
  }

  lemma NumberReadsBack(printed: Printer, t: Text, rest: Text)
    requires IsNumberText(printed, t) && Follows(rest)
    ensures ReadNumber(printed, t + rest) == Some((Number(t), rest))
  {
    IntegerStops(t, rest);
    FractionStops(t, rest, IntegerEnd(t));
    ExponentStops(t, rest, FractionEnd(t, IntegerEnd(t)));
    assert (t + rest)[..|t|] == t && (t + rest)[|t|..] == rest;
  }

  // Containers read back

  function ItemTexts(items: seq<Json>): (r: seq<Text>)
    ensures |r| == |items| && forall i :: 0 <= i < |items| ==> r[i] == Canonical(items[i])
  {
    seq(|items|, i requires 0 <= i < |items| => Canonical(items[i]))
  }

  function MemberTexts(members: seq<(Text, Json)>): (r: seq<Text>)
    ensures |r| == |members| && forall i :: 0 <= i < |members| ==> r[i] == MemberText(members[i])
  {
    seq(|members|, i requires 0 <= i < |members| => MemberText(members[i]))
  }

  lemma ListText(items: seq<Json>)
    ensures Canonical(Array(items)) == [OPEN_LIST] + Join(ItemTexts(items)) + [CLOSE_LIST]
  {
    var parts := seq(|items|, i requires 0 <= i < |items| => Canonical(items[i]));
    assert parts == ItemTexts(items);
  }

  lemma ObjectText(members: seq<(Text, Json)>)
    ensures Canonical(Object(members)) == [OPEN_OBJECT] + Join(MemberTexts(members)) + [CLOSE_OBJECT]
  {
    var parts := seq(|members|, i requires 0 <= i < |members| => MemberText(members[i]));
    assert parts == MemberTexts(members);
  }

  lemma {:induction false} JoinFirst(parts: seq<Text>)
    requires |parts| > 1
    ensures Join(parts) == parts[0] + ([COMMA] + Join(parts[1..]))
    decreases |parts|
  {
    var n := |parts| - 1;
    if n == 1 {
      assert parts[..1] == [parts[0]] && parts[1..] == [parts[1]];
    } else {
      JoinFirst(parts[..n]);
      assert parts[..n][1..] == parts[1..][..n - 1];
    }
  }

  lemma JoinOne(part: Text)
    ensures Join([part]) == part
  {}

  lemma JoinMore(part: Text, parts: seq<Text>, close: Text)
    requires parts != []
    ensures Join([part] + parts) + close == part + ([COMMA] + (Join(parts) + close))
  {
    JoinFirst([part] + parts);
    assert ([part] + parts)[1..] == parts;
  }

  lemma Front<T>(s: seq<T>, k: nat)
    requires k < |s|
    ensures s[k..] == [s[k]] + s[k + 1..]
  {}

  lemma MemberTextsFirst(m: (Text, Json), more: seq<(Text, Json)>)
    ensures MemberTexts([m] + more) == [MemberText(m)] + MemberTexts(more)
  {}

  lemma ItemTextsFirst(v: Json, more: seq<Json>)
    ensures ItemTexts([v] + more) == [Canonical(v)] + ItemTexts(more)
  {}

  /** No encoding starts with a blank or a closing bracket. */
  predicate StartsValue(t: Text) {
    t != [] && !IsBlank(t[0]) && t[0] != CLOSE_LIST && t[0] != CLOSE_OBJECT
  }

  lemma CanonicalStarts(printed: Printer, v: Json)
    requires IsPlain(printed, v)
    ensures StartsValue(Canonical(v))
  {
    match v
    case Null => assert NULL[0] == 0x6E;
    case Bool(_) => assert TRUE[0] == 0x74 && FALSE[0] == 0x66;
    case Number(literal) => assert IntegerEnd(literal) > 0;
    case String(_) =>
    case Array(items) => ListText(items);
    case Object(members) => ObjectText(members);
  }

  lemma JoinStarts(parts: seq<Text>)
    requires parts != [] && StartsValue(parts[0])
    ensures StartsValue(Join(parts))
  {
    if |parts| > 1 {
      JoinFirst(parts);
    }
  }

  lemma SkipsNothing(t: Text)
    requires t != [] && !IsBlank(t[0])
    ensures SkipBlanks(t) == t
  {}

  /** The first value of `t` is `v`, and `rest` comes after it. */
  ghost predicate Reads(printed: Printer, t: Text, v: Json, rest: Text) {
    ReadValue(printed, t) == Some((v, rest))
  }

  lemma WordReadsBack(printed: Printer, v: Json, rest: Text)
    requires v.Null? || v.Bool?
    ensures Reads(printed, Canonical(v) + rest, v, rest)
  {
    var word := Canonical(v);
    assert (word + rest)[..|word|] == word && (word + rest)[|word|..] == rest;
    assert NULL[0] == 0x6E && TRUE[0] == 0x74 && FALSE[0] == 0x66;
  }

  lemma DigitIsNoWord(t: Text)
    requires t != [] && (t[0] == MINUS || IsDigit(t[0]))
    ensures !(NULL <= t) && !(TRUE <= t) && !(FALSE <= t)
  {
    assert NULL[0] == 0x6E && TRUE[0] == 0x74 && FALSE[0] == 0x66;
  }

  lemma NumberValueReadsBack(printed: Printer, literal: Text, rest: Text)
    requires IsNumberText(printed, literal) && Follows(rest)
    ensures Reads(printed, literal + rest, Number(literal), rest)
  {
    NumberReadsBack(printed, literal, rest);
    assert (literal + rest)[0] == literal[0];
    DigitIsNoWord(literal + rest);
  }

  lemma StringReadsBack(printed: Printer, text: Text, rest: Text)
    ensures Reads(printed, Dumps(text) + rest, String(text), rest)
  {
    TextReadsBack(text, rest);
    assert (Dumps(text) + rest)[1..] == EscapeAll(text) + ([QUOTE] + rest);
  }

  lemma ScalarReadsBack(printed: Printer, v: Json, rest: Text)
    requires IsPlain(printed, v) && !IsContainer(v) && Follows(rest)
    ensures Reads(printed, Canonical(v) + rest, v, rest)
  {
    match v
    case Null => WordReadsBack(printed, v, rest);
    case Bool(_) => WordReadsBack(printed, v, rest);
    case Number(literal) => NumberValueReadsBack(printed, literal, rest);
    case String(text) => StringReadsBack(printed, text, rest);
  }

  ghost predicate ReadsItems(printed: Printer, t: Text, items: seq<Json>, rest: Text) {
    ReadItems(printed, t) == Some((items, rest))
  }

  lemma LastItem(printed: Printer, t: Text, v: Json, rest: Text)
    ensures Reads(printed, t, v, [CLOSE_LIST] + rest) ==> ReadsItems(printed, t, [v], rest)
  {
    SkipsNothing([CLOSE_LIST] + rest);
    assert ([CLOSE_LIST] + rest)[1..] == rest;
  }

  lemma NextItem(printed: Printer, t: Text, v: Json, tail: Text, more: seq<Json>, rest: Text)
    requires tail != [] && !IsBlank(tail[0])
    ensures Reads(printed, t, v, [COMMA] + tail) && ReadsItems(printed, tail, more, rest) ==>
              ReadsItems(printed, t, [v] + more, rest)
  {
    SkipsNothing([COMMA] + tail);
    SkipsNothing(tail);
    assert ([COMMA] + tail)[1..] == tail;
  }

  ghost predicate ReadsMember(printed: Printer, t: Text, m: (Text, Json), rest: Text) {
    ReadMember(printed, t) == Some((m, rest))
  }

  lemma KeyReads(printed: Printer, key: Text, value: Text, v: Json, rest: Text)
    requires value != [] && !IsBlank(value[0])
    ensures Reads(printed, value, v, rest) ==>
              ReadsMember(printed, [QUOTE] + (EscapeAll(key) + ([QUOTE] + ([COLON] + value))), (key, v), rest)
  {
    var t, after := EscapeAll(key) + ([QUOTE] + ([COLON] + value)), [COLON] + value;
    assert ([QUOTE] + t)[1..] == t && after[1..] == value;
    TextReadsBack(key, after);
    SkipsNothing(after);
    SkipsNothing(value);
  }

  lemma MemberReadsBack(printed: Printer, m: (Text, Json), rest: Text)
    requires StartsValue(Canonical(m.1))
    ensures Reads(printed, Canonical(m.1) + rest, m.1, rest) ==> ReadsMember(printed, MemberText(m) + rest, m, rest)
  {
    var value := Canonical(m.1) + rest;
    KeyReads(printed, m.0, value, m.1, rest);
    assert MemberText(m) + rest == [QUOTE] + (EscapeAll(m.0) + ([QUOTE] + ([COLON] + value)));
  }

  ghost predicate ReadsMembers(printed: Printer, t: Text, members: seq<(Text, Json)>, rest: Text) {
    ReadMembers(printed, t) == Some((members, rest))
  }

  lemma LastMember(printed: Printer, t: Text, m: (Text, Json), rest: Text)
    ensures ReadsMember(printed, t, m, [CLOSE_OBJECT] + rest) ==> ReadsMembers(printed, t, [m], rest)
  {
    SkipsNothing([CLOSE_OBJECT] + rest);
    assert ([CLOSE_OBJECT] + rest)[1..] == rest;
  }

  lemma NextMember(printed: Printer, t: Text, m: (Text, Json), tail: Text, more: seq<(Text, Json)>, rest: Text)
    requires tail != [] && !IsBlank(tail[0])
    ensures ReadsMember(printed, t, m, [COMMA] + tail) && ReadsMembers(printed, tail, more, rest) ==>
              ReadsMembers(printed, t, [m] + more, rest)
  {
    SkipsNothing([COMMA] + tail);
    SkipsNothing(tail);
    assert ([COMMA] + tail)[1..] == tail;
  }

  lemma ListReads(printed: Printer, inside: Text, items: seq<Json>, rest: Text)
    requires StartsValue(inside)
    ensures ReadsItems(printed, inside, items, rest) ==> Reads(printed, [OPEN_LIST] + inside, Array(items), rest)
  {
    SkipsNothing(inside);
    assert ([OPEN_LIST] + inside)[1..] == inside;
  }

  lemma ObjectReads(printed: Printer, inside: Text, members: seq<(Text, Json)>, rest: Text)
    requires StartsValue(inside)
    ensures ReadsMembers(printed, inside, members, rest) ==>
              ReadValue(printed, [OPEN_OBJECT] + inside)
              == if KeysDiffer(members) then Some((Object(members), rest)) else None
  {
    SkipsNothing(inside);
    assert ([OPEN_OBJECT] + inside)[1..] == inside;
  }

  lemma EmptyReads(printed: Printer, v: Json, rest: Text)
    requires v == Array([]) || v == Object([])
    ensures Reads(printed, Canonical(v) + rest, v, rest)
  {
    var close := if v.Array? then CLOSE_LIST else CLOSE_OBJECT;
    ListText([]);
    ObjectText([]);
    assert (Canonical(v) + rest)[1..] == [close] + rest;
    SkipsNothing([close] + rest);
    assert ([close] + rest)[1..] == rest;
  }

  lemma OnlyItem(printed: Printer, v: Json, rest: Text)
    ensures Reads(printed, Canonical(v) + ([CLOSE_LIST] + rest), v, [CLOSE_LIST] + rest) ==>
              ReadsItems(printed, Join(ItemTexts([v])) + ([CLOSE_LIST] + rest), [v], rest)
  {
    LastItem(printed, Canonical(v) + ([CLOSE_LIST] + rest), v, rest);
    ItemTextsFirst(v, []);
    assert [v] + [] == [v] && [Canonical(v)] + ItemTexts([]) == [Canonical(v)];
    JoinOne(Canonical(v));
  }

  lemma OneMoreItem(printed: Printer, v: Json, more: seq<Json>, rest: Text)
    requires more != [] && StartsValue(Canonical(more[0]))
    ensures var tail := Join(ItemTexts(more)) + ([CLOSE_LIST] + rest);
      Reads(printed, Canonical(v) + ([COMMA] + tail), v, [COMMA] + tail) && ReadsItems(printed, tail, more, rest)
      ==> ReadsItems(printed, Join(ItemTexts([v] + more)) + ([CLOSE_LIST] + rest), [v] + more, rest)
  {
    var tail := Join(ItemTexts(more)) + ([CLOSE_LIST] + rest);
    JoinStarts(ItemTexts(more));
    ItemTextsFirst(v, more);
    JoinMore(Canonical(v), ItemTexts(more), [CLOSE_LIST] + rest);
    NextItem(printed, Canonical(v) + ([COMMA] + tail), v, tail, more, rest);
  }

  /** The items of a list from the `k`-th on. */
  lemma {:induction false} ItemsReadBack(printed: Printer, v: Json, k: nat, rest: Text)
    requires v.Array? && k < |v.items| && HoldsPlain(printed, v)
    ensures ReadsItems(printed, Join(ItemTexts(v.items[k..])) + ([CLOSE_LIST] + rest), v.items[k..], rest)
    decreases v, 0, |v.items| - k
  {
    var item, more := v.items[k], v.items[k + 1..];
    Front(v.items, k);
    if more == [] {
      ValueReadsBack(printed, Child(v, k), [CLOSE_LIST] + rest);
      OnlyItem(printed, item, rest);
      assert [item] + more == [item];
    } else {
      var tail := Join(ItemTexts(more)) + ([CLOSE_LIST] + rest);
      ItemsReadBack(printed, v, k + 1, rest);
      ValueReadsBack(printed, Child(v, k), [COMMA] + tail);
      CanonicalStarts(printed, Child(v, k + 1));
      OneMoreItem(printed, item, more, rest);
    }
  }

  lemma MembersStart(members: seq<(Text, Json)>)
    requires members != []
    ensures StartsValue(Join(MemberTexts(members)))
  {
    JoinStarts(MemberTexts(members));
  }

  lemma OnlyMember(printed: Printer, m: (Text, Json), rest: Text)
    ensures ReadsMember(printed, MemberText(m) + ([CLOSE_OBJECT] + rest), m, [CLOSE_OBJECT] + rest) ==>
              ReadsMembers(printed, Join(MemberTexts([m])) + ([CLOSE_OBJECT] + rest), [m], rest)
  {
    LastMember(printed, MemberText(m) + ([CLOSE_OBJECT] + rest), m, rest);
    MemberTextsFirst(m, []);
    assert [m] + [] == [m] && [MemberText(m)] + MemberTexts([]) == [MemberText(m)];
    JoinOne(MemberText(m));
  }

  lemma OneMoreMember(printed: Printer, m: (Text, Json), more: seq<(Text, Json)>, rest: Text)
    requires more != []
    ensures var tail := Join(MemberTexts(more)) + ([CLOSE_OBJECT] + rest);
      && ReadsMember(printed, MemberText(m) + ([COMMA] + tail), m, [COMMA] + tail)
      && ReadsMembers(printed, tail, more, rest)
      ==> ReadsMembers(printed, Join(MemberTexts([m] + more)) + ([CLOSE_OBJECT] + rest), [m] + more, rest)
  {
    var tail := Join(MemberTexts(more)) + ([CLOSE_OBJECT] + rest);
    MembersStart(more);
    MemberTextsFirst(m, more);
    JoinMore(MemberText(m), MemberTexts(more), [CLOSE_OBJECT] + rest);
    NextMember(printed, MemberText(m) + ([COMMA] + tail), m, tail, more, rest);
  }

  /** The members of an object from the `k`-th on. */
  lemma {:induction false} MembersReadBack(printed: Printer, v: Json, k: nat, rest: Text)
    requires v.Object? && k < |v.members| && HoldsPlain(printed, v)
    ensures ReadsMembers(printed, Join(MemberTexts(v.members[k..])) + ([CLOSE_OBJECT] + rest), v.members[k..], rest)
    decreases v, 0, |v.members| - k
  {
    var m, more := v.members[k], v.members[k + 1..];
    Front(v.members, k);
    CanonicalStarts(printed, Child(v, k));
    if more == [] {
      ValueReadsBack(printed, Child(v, k), [CLOSE_OBJECT] + rest);
      MemberReadsBack(printed, m, [CLOSE_OBJECT] + rest);
      OnlyMember(printed, m, rest);
      assert [m] + more == [m];
    } else {
      var tail := Join(MemberTexts(more)) + ([CLOSE_OBJECT] + rest);
      MembersReadBack(printed, v, k + 1, rest);
      ValueReadsBack(printed, Child(v, k), [COMMA] + tail);
      MemberReadsBack(printed, m, [COMMA] + tail);
      OneMoreMember(printed, m, more, rest);
    }
  }

  lemma ListOpens(items: seq<Json>, rest: Text)
    ensures Canonical(Array(items)) + rest == [OPEN_LIST] + (Join(ItemTexts(items)) + ([CLOSE_LIST] + rest))
  {
    ListText(items);
  }

  lemma ObjectOpens(members: seq<(Text, Json)>, rest: Text)
    ensures Canonical(Object(members)) + rest == [OPEN_OBJECT] + (Join(MemberTexts(members)) + ([CLOSE_OBJECT] + rest))
  {
    ObjectText(members);
  }

  lemma ListReadsBack(printed: Printer, items: seq<Json>, rest: Text)
    requires items != [] && StartsValue(Canonical(items[0]))
    ensures ReadsItems(printed, Join(ItemTexts(items)) + ([CLOSE_LIST] + rest), items, rest) ==>
              Reads(printed, Canonical(Array(items)) + rest, Array(items), rest)
  {
    JoinStarts(ItemTexts(items));
    ListOpens(items, rest);
    ListReads(printed, Join(ItemTexts(items)) + ([CLOSE_LIST] + rest), items, rest);
  }

  lemma ObjectReadsBack(printed: Printer, members: seq<(Text, Json)>, rest: Text)
    requires members != []
    ensures ReadsMembers(printed, Join(MemberTexts(members)) + ([CLOSE_OBJECT] + rest), members, rest) ==>
              ReadValue(printed, Canonical(Object(members)) + rest)
              == if KeysDiffer(members) then Some((Object(members), rest)) else None
  {
    MembersStart(members);
    ObjectOpens(members, rest);
    ObjectReads(printed, Join(MemberTexts(members)) + ([CLOSE_OBJECT] + rest), members, rest);
  }

  /** Reading inverts the compact encoding, whatever follows it there. */
  lemma {:induction false} ValueReadsBack(printed: Printer, v: Json, rest: Text)
    requires IsPlain(printed, v) && Follows(rest)
    ensures Reads(printed, Canonical(v) + rest, v, rest)
    decreases v, 1
  {
    if !IsContainer(v) {
      ScalarReadsBack(printed, v, rest);
    } else if Arity(v) == 0 {
      EmptyReads(printed, v, rest);
    } else if v.Array? {
      assert v.items[0..] == v.items;
      PlainHoldsPlain(printed, v);
      CanonicalStarts(printed, Child(v, 0));
      ItemsReadBack(printed, v, 0, rest);
      ListReadsBack(printed, v.items, rest);
    } else {
      assert v.members[0..] == v.members;
      PlainHoldsPlain(printed, v);
      MembersReadBack(printed, v, 0, rest);
      ObjectReadsBack(printed, v.members, rest);
    }
  }

  /** The round trip: a value that Python can hold and encode is read back from its encoding. */
  lemma LoadsInvertsCanonical(printed: Printer, v: Json)
    requires IsPlain(printed, v)
    ensures Loads(printed, Canonical(v)) == Some(v)
  {
    CanonicalStarts(printed, v);
    SkipsNothing(Canonical(v));
    assert Canonical(v) + [] == Canonical(v);
    ValueReadsBack(printed, v, []);
  }

  /** An object of such values is refused exactly for a repeated key. */
  lemma RepeatedKeyIsRefused(printed: Printer, members: seq<(Text, Json)>)
    requires HoldsPlain(printed, Object(members))
    ensures Loads(printed, Canonical(Object(members))) == if KeysDiffer(members) then Some(Object(members)) else None
  {
    var v := Object(members);
    ObjectText(members);
    SkipsNothing(Canonical(v));
    assert Canonical(v) + [] == Canonical(v) && members[0..] == members;
    if members == [] {
      EmptyReads(printed, v, []);
    } else {
      MembersReadBack(printed, v, 0, []);
      ObjectReadsBack(printed, members, []);
    }
  }

  // What is read is proper

  lemma {:induction false} DigitsOfPrefix(t: Text, i: nat, k: nat)
    requires i <= |t| && DigitsEnd(t, i) <= k <= |t|
    ensures DigitsEnd(t[..k], i) == DigitsEnd(t, i)
    decreases |t| - i
  {
    if i == |t| || !IsDigit(t[i]) {
    } else {
      DigitsOfPrefix(t, i + 1, k);
    }
  }

  lemma IntegerOfPrefix(t: Text, k: nat)
    requires 0 < IntegerEnd(t) <= k <= |t|
    ensures IntegerEnd(t[..k]) == IntegerEnd(t)
  {
    var sign := if t[0] == MINUS then 1 else 0;
    if t[sign] != 0x30 {
      DigitsOfPrefix(t, sign, k);
    }
  }

  lemma FractionOfPrefix(t: Text, i: nat, k: nat)
    requires i <= |t| && FractionEnd(t, i) <= k <= |t|
    ensures FractionEnd(t[..k], i) == FractionEnd(t, i)
  {
    if i < k && t[i] == 0x2E {
      DigitsOfPrefix(t, i + 1, k);
    }
  }

  lemma ExponentOfPrefix(t: Text, i: nat, k: nat)
    requires i <= |t| && ExponentEnd(t, i) == k
    ensures ExponentEnd(t[..k], i) == k
  {
    if i < k {
      DigitsOfPrefix(t, if t[i + 1] == 0x2B || t[i + 1] == MINUS then i + 2 else i + 1, k);
    }
  }

  lemma FloatIsRead(t: Text, n: nat, m: nat)
    requires 0 < n < m && n == IntegerEnd(t) && m == ExponentEnd(t, FractionEnd(t, n))
    ensures m <= |t| && IsFloatText(t[..m])
  {
    IntegerOfPrefix(t, m);
    FractionOfPrefix(t, n, m);
    ExponentOfPrefix(t, FractionEnd(t, n), m);
  }

  lemma IntegerIsRead(t: Text, n: nat)
    requires 0 < n == IntegerEnd(t) && !IsTooLong(t[..n])
    ensures IsIntegerText(PrintedInteger(t[..n]))
  {
    IntegerOfPrefix(t, n);
  }

  /** The text a number is read from is a number text, and so is what it prints as. */
  lemma ReadNumberIsProper(printed: Printer, t: Text)
    requires IsPrinter(printed)
    ensures var r := ReadNumber(printed, t); r.None? || IsProper(printed, r.value.0)
  {
    var n := IntegerEnd(t);
    var m := ExponentEnd(t, FractionEnd(t, n));
    if 0 < n < m {
      FloatIsRead(t, n, m);
      assert IsPrintedWell(printed, t[..m]);
    } else if 0 < n && !IsTooLong(t[..n]) {
      IntegerIsRead(t, n);
    }
  }

  ghost predicate AllProper(printed: Printer, items: seq<Json>) {
    forall i :: 0 <= i < |items| ==> IsProper(printed, items[i])
  }

  ghost predicate MembersProper(printed: Printer, members: seq<(Text, Json)>) {
    forall i :: 0 <= i < |members| ==> IsProper(printed, members[i].1)
  }

  lemma {:induction false} ReadItemsAreProper(printed: Printer, t: Text)
    requires IsPrinter(printed) && ReadItems(printed, t).Some?
    ensures AllProper(printed, ReadItems(printed, t).value.0)
    decreases |t|, 2
  {
    ReadValueIsProper(printed, t);
    var after := SkipBlanks(ReadValue(printed, t).value.1);
    if after[0] == CLOSE_LIST {
    } else {
      ReadItemsAreProper(printed, SkipBlanks(after[1..]));
    }
  }

  lemma {:induction false} ReadMemberIsProper(printed: Printer, t: Text)
    requires IsPrinter(printed) && ReadMember(printed, t).Some?
    ensures IsProper(printed, ReadMember(printed, t).value.0.1)
    decreases |t|, 2
  {
    var after := SkipBlanks(ReadChars(t[1..]).value.1);
    ReadValueIsProper(printed, SkipBlanks(after[1..]));
  }

  lemma {:induction false} ReadMembersAreProper(printed: Printer, t: Text)
    requires IsPrinter(printed) && ReadMembers(printed, t).Some?
    ensures MembersProper(printed, ReadMembers(printed, t).value.0)
    decreases |t|, 3
  {
    ReadMemberIsProper(printed, t);
    var after := SkipBlanks(ReadMember(printed, t).value.1);
    if after[0] == CLOSE_OBJECT {
    } else {
      ReadMembersAreProper(printed, SkipBlanks(after[1..]));
    }
  }

  lemma {:induction false} ReadValueIsProper(printed: Printer, t: Text)
    requires IsPrinter(printed) && ReadValue(printed, t).Some?
    ensures IsProper(printed, ReadValue(printed, t).value.0)
    decreases |t|, 1
  {
    var inside := SkipBlanks(t[1..]);
    if t[0] == QUOTE {
    } else if t[0] == OPEN_LIST {
      if inside[0] != CLOSE_LIST {
        ReadItemsAreProper(printed, inside);
      }
    } else if t[0] == OPEN_OBJECT {
      if inside[0] != CLOSE_OBJECT {
        ReadMembersAreProper(printed, inside);
      }
    } else if !(NULL <= t) && !(TRUE <= t) && !(FALSE <= t) {
      ReadNumberIsProper(printed, t);
    }
  }

  /** Whatever is read has no repeated key anywhere and is written as it prints; so if no number overflowed, writing it
      and reading that gives it again. */
  lemma LoadsIsStable(printed: Printer, t: Text)
    requires IsPrinter(printed) && Loads(printed, t).Some?
    ensures var v := Loads(printed, t).value;
      IsProper(printed, v) && (IsFinite(v) ==> Loads(printed, Canonical(v)) == Some(v))
  {
    ReadValueIsProper(printed, SkipBlanks(t));
    var v := Loads(printed, t).value;
    if IsFinite(v) {
      LoadsInvertsCanonical(printed, v);
    }
  }
}
