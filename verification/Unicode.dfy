/** Code points as Python strings hold them, with UTF-8 widths and `str.strip`. */
module Unicode {
  datatype Option<+T> = None | Some(value: T)

  // A Python string may hold lone surrogates, so Dafny's `char` is too small.
  type Code = c: int | 0 <= c <= 0x10FFFF
  type Text = seq<Code>

  const QUESTION_MARK: Code := 0x3F
  const QUOTE: Code := 0x22
  const BACKSLASH: Code := 0x5C

  function Ascii(s: string): (t: Text)
    ensures |t| == |s|
  {
    seq(|s|, i requires 0 <= i < |s| => s[i] as int)
  }

  predicate EndsWith(t: Text, suffix: Text) {
    |suffix| <= |t| && t[|t| - |suffix|..] == suffix
  }

  predicate IsSurrogate(c: Code) {
    0xD800 <= c <= 0xDFFF
  }

  predicate IsHighSurrogate(c: Code) {
    0xD800 <= c <= 0xDBFF
  }

  predicate IsLowSurrogate(c: Code) {
    0xDC00 <= c <= 0xDFFF
  }

  /** A scalar value other than NUL: what a question may contain. */
  predicate IsScalar(c: Code) {
    c != 0 && !IsSurrogate(c)
  }

  /** The scalar a surrogate pair stands for. */
  function Combine(high: Code, low: Code): (c: Code)
    requires IsHighSurrogate(high) && IsLowSurrogate(low)
    ensures 0x10000 <= c && IsScalar(c)
  {
    0x10000 + (high - 0xD800) * 0x400 + (low - 0xDC00)
  }

  /** Byte count of one code point, section 3 of RFC 3629. */
  function Width(c: Code): (n: nat)
    ensures 1 <= n <= 4
  {
    if c <= 0x7F then 1 else if c <= 0x7FF then 2 else if c <= 0xFFFF then 3 else 4
  }

  function Bytes(t: Text): (n: nat)
    ensures n >= |t|
  {
    if t == [] then 0 else Bytes(t[..|t| - 1]) + Width(t[|t| - 1])
  }

  lemma BytesAppend(t: Text, c: Code)
    ensures Bytes(t + [c]) == Bytes(t) + Width(c)
  {
    assert (t + [c])[..|t|] == t;
  }

  lemma {:induction false} BytesConcat(a: Text, b: Text)
    ensures Bytes(a + b) == Bytes(a) + Bytes(b)
  {
    if b == [] {
      assert a + b == a;
    } else {
      var last := b[|b| - 1];
      var front := b[..|b| - 1];
      assert a + b == (a + front) + [last];
      BytesAppend(a + front, last);
      BytesConcat(a, front);
    }
  }

  /** The characters `str.strip` removes. */
  predicate IsSpace(c: Code) {
    || 0x09 <= c <= 0x0D
    || 0x1C <= c <= 0x20
    || c == 0x85
    || c == 0xA0
    || c == 0x1680
    || 0x2000 <= c <= 0x200A
    || c == 0x2028
    || c == 0x2029
    || c == 0x202F
    || c == 0x205F
    || c == 0x3000
  }

  predicate AllSpace(t: Text) {
    forall i :: 0 <= i < |t| ==> IsSpace(t[i])
  }

  function TrimLeft(t: Text): (r: Text) {
    if t != [] && IsSpace(t[0]) then TrimLeft(t[1..]) else t
  }

  function TrimRight(t: Text): (r: Text) {
    if t != [] && IsSpace(t[|t| - 1]) then TrimRight(t[..|t| - 1]) else t
  }

  function Strip(t: Text): (r: Text) {
    TrimRight(TrimLeft(t))
  }

  lemma {:induction false} TrimLeftAppend(t: Text, s: Text)
    requires s != [] && !IsSpace(s[0])
    ensures TrimLeft(t + s) == TrimLeft(t) + s
  {
    if t == [] {
      assert t + s == s;
    } else if IsSpace(t[0]) {
      assert (t + s)[1..] == t[1..] + s;
      TrimLeftAppend(t[1..], s);
    }
  }

  lemma {:induction false} TrimLeftAppendSpace(t: Text, c: Code)
    requires IsSpace(c)
    ensures TrimLeft(t + [c]) == if TrimLeft(t) == [] then [] else TrimLeft(t) + [c]
  {
    if t == [] {
      assert t + [c] == [c];
    } else if IsSpace(t[0]) {
      assert (t + [c])[1..] == t[1..] + [c];
      TrimLeftAppendSpace(t[1..], c);
    }
  }

  /** A last character that is no space survives stripping, and nothing after the leading spaces is lost. */
  lemma StripAppendVisible(t: Text, c: Code)
    requires !IsSpace(c)
    ensures Strip(t + [c]) == TrimLeft(t) + [c]
  {
    TrimLeftAppend(t, [c]);
  }

  lemma StripAppendSpace(t: Text, c: Code)
    requires IsSpace(c)
    ensures Strip(t + [c]) == Strip(t)
  {
    TrimLeftAppendSpace(t, c);
    var u := TrimLeft(t);
    if u != [] {
      assert (u + [c])[..|u|] == u;
    }
  }

  lemma {:induction false} TrimLeftSplits(t: Text) returns (before: Text)
    ensures t == before + TrimLeft(t) && AllSpace(before)
    ensures TrimLeft(t) != [] ==> !IsSpace(TrimLeft(t)[0])
  {
    if t != [] && IsSpace(t[0]) {
      var b := TrimLeftSplits(t[1..]);
      before := [t[0]] + b;
      assert t == [t[0]] + t[1..];
    } else {
      before := [];
    }
  }

  lemma {:induction false} TrimRightSplits(t: Text) returns (after: Text)
    ensures t == TrimRight(t) + after && AllSpace(after)
    ensures TrimRight(t) != [] ==> !IsSpace(TrimRight(t)[|TrimRight(t)| - 1]) && TrimRight(t)[0] == t[0]
  {
    if t != [] && IsSpace(t[|t| - 1]) {
      var a := TrimRightSplits(t[..|t| - 1]);
      after := a + [t[|t| - 1]];
      assert t == t[..|t| - 1] + [t[|t| - 1]];
    } else {
      after := [];
    }
  }

  /** What `strip` means: the middle of the text between two runs of spaces, bounded by visible characters. */
  lemma {:induction false} StripSplits(t: Text) returns (before: Text, after: Text)
    ensures t == before + Strip(t) + after && AllSpace(before) && AllSpace(after)
    ensures Strip(t) != [] ==> !IsSpace(Strip(t)[0]) && !IsSpace(Strip(t)[|Strip(t)| - 1])
  {
    before := TrimLeftSplits(t);
    after := TrimRightSplits(TrimLeft(t));
    assert t == before + Strip(t) + after;
  }

  /** Nothing is left of a text if and only if it is blank. */
  lemma StripIsEmpty(t: Text)
    ensures Strip(t) == [] <==> AllSpace(t)
  {
    var before, after := StripSplits(t);
    if Strip(t) != [] {
      assert t[|before|] == Strip(t)[0];
    } else {
      assert t == before + after;
    }
  }

  /** What stripping leaves is the only part of a text with spaces around it and none at its ends. */
  lemma StripIsUnique(t: Text, before: Text, kept: Text, after: Text)
    requires t == before + kept + after && AllSpace(before) && AllSpace(after)
    requires kept != [] && !IsSpace(kept[0]) && !IsSpace(kept[|kept| - 1])
    ensures Strip(t) == kept
  {
    var a, b := StripSplits(t);
    assert t[|before|] == kept[0] && t[|before| + |kept| - 1] == kept[|kept| - 1];
    StripIsEmpty(t);
    var s := Strip(t);
    assert t[|a|] == s[0] && t[|a| + |s| - 1] == s[|s| - 1];
    assert |a| == |before|;
    assert |s| == |kept|;
    assert t[|a|..|a| + |s|] == s && t[|before|..|before| + |kept|] == kept;
  }
}
