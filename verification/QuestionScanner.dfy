/**
 The part of the graph automaton that reads one question: the characters between the two quotes of
 a JSON string (section 7 of RFC 8259), decoded on the fly under a byte budget.
 */
module QuestionScanner {
  import opened Unicode
  import opened Numerals

  /** What stays fixed while one question is read: its byte bound and the texts it must not repeat. */
  datatype Context = Context(maxBytes: nat, goal: Text, taken: seq<Text>)

  datatype Escape = NoEscape | Backslash | UnicodeEscape(digits: Text)

  datatype Scan = Scan(text: Text, textBytes: nat, escape: Escape, high: Option<Code>)

  datatype Outcome = Rejected | Continue(scan: Scan) | Closed

  const EMPTY: Scan := Scan([], 0, NoEscape, None)

  predicate Distinct(k: Context, value: Text) {
    value != k.goal && value !in k.taken
  }

  predicate Acceptable(k: Context, value: Text) {
    value != [] && value[|value| - 1] == QUESTION_MARK && Distinct(k, value)
  }

  predicate Complete(k: Context, q: Scan) {
    Acceptable(k, Strip(q.text)) && q.escape.NoEscape? && q.high.None?
  }

  predicate TextCanFinish(k: Context, text: Text, size: nat) {
    || size < k.maxBytes - 1
    || Acceptable(k, Strip(text))
    || (size == k.maxBytes - 1 && Distinct(k, Strip(text + [QUESTION_MARK])))
  }

  function Append(k: Context, q: Scan, c: Code): (r: Outcome) {
    if !IsScalar(c) then Rejected
    else
      var size := q.textBytes + Width(c);
      if size > k.maxBytes then Rejected
      else if TextCanFinish(k, q.text + [c], size) then Continue(q.(text := q.text + [c], textBytes := size))
      else Rejected
  }

  // Lookahead over an interval of scalars

  /** One row of the width table: scalars `first..last` all take `width` bytes. */
  predicate BandCanFinish(k: Context, q: Scan, low: int, high: int, first: Code, last: Code, width: nat) {
    var remaining := k.maxBytes - q.textBytes;
    var start, end := Max(low, first), Min(high, last);
    && width < remaining
    && start <= end
    && (|| width + 1 < remaining
        || exists scalar: Code :: start <= scalar <= end && TextCanFinish(k, q.text + [scalar], q.textBytes + width))
  }

  const ENDINGS: Text :=
    [0x3F, 0x09, 0x0A, 0x0B, 0x0C, 0x0D, 0x1C, 0x1D, 0x1E, 0x1F, 0x20, 0x85, 0xA0, 0x1680,
     0x2000, 0x2001, 0x2002, 0x2003, 0x2004, 0x2005, 0x2006, 0x2007, 0x2008, 0x2009, 0x200A,
     0x2028, 0x2029, 0x202F, 0x205F, 0x3000]

  predicate EndingCanFinish(k: Context, q: Scan, low: int, high: int) {
    exists c :: c in ENDINGS && low <= c <= high && Width(c) == k.maxBytes - q.textBytes
                && TextCanFinish(k, q.text + [c], k.maxBytes)
  }

  predicate ScalarRangeCanFinish(k: Context, q: Scan, low: int, high: int) {
    || BandCanFinish(k, q, low, high, 1, 0x7F, 1)
    || BandCanFinish(k, q, low, high, 0x80, 0x7FF, 2)
    || BandCanFinish(k, q, low, high, 0x800, 0xD7FF, 3)
    || BandCanFinish(k, q, low, high, 0xE000, 0xFFFF, 3)
    || BandCanFinish(k, q, low, high, 0x10000, 0x10FFFF, 4)
    || EndingCanFinish(k, q, low, high)
  }

  // Hexadecimal escapes

  predicate IsHex(c: Code) {
    0x30 <= c <= 0x39 || 0x61 <= c <= 0x66 || 0x41 <= c <= 0x46
  }

  function HexValue(c: Code): (v: nat)
    requires IsHex(c)
    ensures v < 16
  {
    if c <= 0x39 then c - 0x30 else if c >= 0x61 then c - 0x61 + 10 else c - 0x41 + 10
  }

  predicate AllHex(t: Text) {
    forall i :: 0 <= i < |t| ==> IsHex(t[i])
  }

  /** How many code units start with `n` given digits, as four-digit numbers. */
  function Span(n: nat): (s: nat)
    requires n <= 4
    ensures s >= 1
  {
    if n == 0 then 0x10000 else if n == 1 then 0x1000 else if n == 2 then 0x100 else if n == 3 then 0x10 else 1
  }

  function HexNumber(t: Text): (v: nat)
    requires AllHex(t) && |t| <= 4
    ensures (v + 1) * Span(|t|) <= 0x10000
  {
    if t == [] then 0 else 16 * HexNumber(t[..|t| - 1]) + HexValue(t[|t| - 1])
  }

  /** The least code unit whose four-digit spelling starts with `digits`. */
  function FirstUnit(digits: Text): (u: Code)
    requires AllHex(digits) && |digits| <= 4
    ensures u + Span(|digits|) <= 0x10000
  {
    HexNumber(digits) * Span(|digits|)
  }

  /** Some low surrogate in the range completes the pair that `h` begins. */
  predicate LowHalfCanFinish(k: Context, q: Scan, h: Code, low: int, high: int) {
    var low, high := Max(low, 0xDC00), Min(high, 0xDFFF);
    var base := 0x10000 + (h - 0xD800) * 0x400;
    low <= high && ScalarRangeCanFinish(k, q, base + low - 0xDC00, base + high - 0xDC00)
  }

  /** Some high surrogate in the range begins a pair. */
  predicate HighHalfCanFinish(k: Context, q: Scan, low: int, high: int) {
    var low, high := Max(low, 0xD800), Min(high, 0xDBFF);
    && low <= high
    && ScalarRangeCanFinish(k, q, 0x10000 + (low - 0xD800) * 0x400, 0x10000 + (high - 0xD800) * 0x400 + 0x3FF)
  }

  predicate UnicodePrefixCanFinish(k: Context, q: Scan, digits: Text)
    requires AllHex(digits) && |digits| <= 4
  {
    var low := FirstUnit(digits);
    var high := low + Span(|digits|) - 1;
    match q.high
    case Some(h) => LowHalfCanFinish(k, q, h, low, high)
    case None => ScalarRangeCanFinish(k, q, low, high) || HighHalfCanFinish(k, q, low, high)
  }

  // Transitions

  /** The scalar a one-letter escape stands for. */
  function ShortEscape(letter: Code): (r: Option<Code>) {
    if letter == QUOTE || letter == BACKSLASH || letter == 0x2F then Some(letter)
    else if letter == 0x62 then Some(0x08)
    else if letter == 0x66 then Some(0x0C)
    else if letter == 0x6E then Some(0x0A)
    else if letter == 0x72 then Some(0x0D)
    else if letter == 0x74 then Some(0x09)
    else None
  }

  /** Holds of every scan the automaton makes; the lookahead is undefined outside it. */
  predicate WellFormed(q: Scan) {
    && (q.high.Some? ==> IsHighSurrogate(q.high.value))
    && (q.escape.UnicodeEscape? ==> |q.escape.digits| < 4 && AllHex(q.escape.digits))
  }

  /** The four digits of an escape are known: they are a scalar, or half of one. */
  function FinishUnit(k: Context, q: Scan, unit: Code): (r: Outcome)
    requires WellFormed(q)
  {
    match q.high
    case Some(h) =>
      if IsLowSurrogate(unit) then Append(k, q.(escape := NoEscape, high := None), Combine(h, unit))
      else Rejected
    case None =>
      if IsHighSurrogate(unit) then
        if q.textBytes + 4 > k.maxBytes then Rejected
        else Continue(q.(escape := NoEscape, high := Some(unit)))
      else Append(k, q.(escape := NoEscape), unit)
  }

  function ScanHex(k: Context, q: Scan, c: Code): (r: Outcome)
    requires WellFormed(q) && q.escape.UnicodeEscape?
  {
    if !IsHex(c) then Rejected
    else
      var digits := q.escape.digits + [c];
      if !UnicodePrefixCanFinish(k, q, digits) then Rejected
      else if |digits| < 4 then Continue(q.(escape := UnicodeEscape(digits)))
      else FinishUnit(k, q, HexNumber(digits))
  }

  function ScanCharacter(k: Context, q: Scan, c: Code): (r: Outcome)
    requires WellFormed(q)
    ensures r.Continue? ==> WellFormed(r.scan)
  {
    match q.escape
    case Backslash =>
      if c == 0x75 then
        if UnicodePrefixCanFinish(k, q, []) then Continue(q.(escape := UnicodeEscape([]))) else Rejected
      else if q.high.None? && ShortEscape(c).Some? then Append(k, q.(escape := NoEscape), ShortEscape(c).value)
      else Rejected
    case UnicodeEscape(_) => ScanHex(k, q, c)
    case NoEscape =>
      if c == BACKSLASH then
        if UnicodePrefixCanFinish(k, q, []) then Continue(q.(escape := Backslash)) else Rejected
      else if q.high.Some? then Rejected
      else if c == QUOTE then if Complete(k, q) then Closed else Rejected
      else if c < 0x20 then Rejected
      else Append(k, q, c)
  }

  /** Feed a run of characters none of which closes the string. */
  function ScanAll(k: Context, q: Scan, body: Text): (r: Outcome)
    requires WellFormed(q)
    ensures r.Continue? ==> WellFormed(r.scan)
    ensures !r.Closed?
    decreases |body|
  {
    if body == [] then Continue(q)
    else
      match ScanCharacter(k, q, body[0])
      case Continue(next) => ScanAll(k, next, body[1..])
      case _ => Rejected
  }

  lemma {:induction false} ScanAllConcat(k: Context, q: Scan, a: Text, b: Text)
    requires WellFormed(q)
    ensures ScanAll(k, q, a + b)
         == match ScanAll(k, q, a) case Continue(next) => ScanAll(k, next, b) case _ => Rejected
    decreases |a|
  {
    if a == [] {
      assert a + b == b;
    } else {
      assert (a + b)[1..] == a[1..] + b;
      match ScanCharacter(k, q, a[0])
      case Continue(next) => ScanAllConcat(k, next, a[1..], b);
      case _ =>
    }
  }
}
