/** Names of converted tensors: two single tensors and the parts of 36 numbered layers. */
module TensorNames {
  import opened Unicode
  import opened Numerals
  import opened Tables

  const EMBEDDING: Text := Ascii("model.embed_tokens.weight")
  const TOKEN_EMBEDDING: Text := Ascii("token_embd.weight")
  const NORM: Text := Ascii("model.norm.weight")
  const OUTPUT_NORM: Text := Ascii("output_norm.weight")
  const LAYERS: Text := Ascii("model.layers.")
  const BLOCK: Text := Ascii("blk.")
  const WEIGHT: Text := Ascii(".weight")
  const DOT: Code := 0x2E

  function Table(): (t: seq<(Text, Text)>) {
    [(Ascii("input_layernorm"), Ascii("attn_norm")), (Ascii("post_attention_layernorm"), Ascii("ffn_norm")),
     (Ascii("self_attn.q_proj"), Ascii("attn_q")), (Ascii("self_attn.k_proj"), Ascii("attn_k")),
     (Ascii("self_attn.v_proj"), Ascii("attn_v")), (Ascii("self_attn.o_proj"), Ascii("attn_output")),
     (Ascii("self_attn.q_norm"), Ascii("attn_q_norm")), (Ascii("self_attn.k_norm"), Ascii("attn_k_norm")),
     (Ascii("mlp.gate_proj"), Ascii("ffn_gate")), (Ascii("mlp.up_proj"), Ascii("ffn_up")),
     (Ascii("mlp.down_proj"), Ascii("ffn_down"))]
  }

  function LeadingDigits(t: Text): (n: nat)
    ensures n <= |t| && AllDigits(t[..n]) && (n < |t| ==> !IsDigit(t[n]))
  {
    if t == [] || !IsDigit(t[0]) then 0
    else
      var n := LeadingDigits(t[1..]);
      assert t[..n + 1] == [t[0]] + t[1..][..n];
      n + 1
  }

  /** A number that Python reads, a dot, and a part before `suffix`. */
  function SplitTail(suffix: Text, rest: Text): (r: Option<(nat, Text)>) {
    var n := LeadingDigits(rest);
    if n == 0 || n > MAX_DIGITS || n + 1 + |suffix| >= |rest| || rest[n] != DOT then None
    else Some((Value(rest[..n]), rest[n + 1..|rest| - |suffix|]))
  }

  /** The number after `prefix` and the part between it and `suffix`, for a name of that form. */
  function SplitNumbered(prefix: Text, suffix: Text, name: Text): (r: Option<(nat, Text)>) {
    if prefix <= name && EndsWith(name, suffix) then SplitTail(suffix, name[|prefix|..]) else None
  }

  function NumberedName(prefix: Text, suffix: Text, digits: Text, middle: Text): (t: Text) {
    prefix + (digits + ([DOT] + (middle + suffix)))
  }

  /** The converted name of a source tensor, or None where the name is refused. */
  function TensorName(name: Text): (r: Option<Text>) {
    if name == EMBEDDING then Some(TOKEN_EMBEDDING)
    else if name == NORM then Some(OUTPUT_NORM)
    else
      match SplitNumbered(LAYERS, WEIGHT, name)
      case None => None
      case Some(parts) =>
        if parts.0 >= 36 || Lookup(Table(), parts.1).None? then None
        else Some(NumberedName(BLOCK, WEIGHT, Decimal(parts.0), Lookup(Table(), parts.1).value))
  }

  // Reading a name that was put together

  lemma {:induction false} LeadingDigitsStop(digits: Text, rest: Text)
    requires AllDigits(digits) && (rest == [] || !IsDigit(rest[0]))
    ensures LeadingDigits(digits + rest) == |digits|
  {
    if digits == [] {
      assert digits + rest == rest;
    } else {
      assert (digits + rest)[1..] == digits[1..] + rest;
      LeadingDigitsStop(digits[1..], rest);
    }
  }

  lemma Slices<T>(a: seq<T>, b: seq<T>)
    ensures a <= a + b && (a + b)[..|a|] == a && (a + b)[|a|..] == b
  {}

  lemma EndsWithKeeps(a: Text, b: Text, suffix: Text)
    requires EndsWith(b, suffix)
    ensures EndsWith(a + b, suffix)
  {
    assert (a + b)[|a + b| - |suffix|..] == b[|b| - |suffix|..];
  }

  lemma TailShape<T>(a: seq<T>, x: T, b: seq<T>, c: seq<T>, rest: seq<T>)
    requires rest == a + ([x] + (b + c))
    ensures |rest| == |a| + 1 + |b| + |c| && rest[|a|] == x
    ensures rest[..|a|] == a && rest[|a| + 1..|rest| - |c|] == b
  {}

  lemma NumberedTail(digits: Text, middle: Text, suffix: Text, rest: Text)
    requires digits != [] && AllDigits(digits) && middle != []
    requires rest == digits + ([DOT] + (middle + suffix))
    ensures SplitTail(suffix, rest) == if |digits| <= MAX_DIGITS then Some((Value(digits), middle)) else None
  {
    LeadingDigitsStop(digits, [DOT] + (middle + suffix));
    TailShape(digits, DOT, middle, suffix, rest);
  }

  lemma SplitOfNumberedName(prefix: Text, suffix: Text, digits: Text, middle: Text)
    requires digits != [] && AllDigits(digits) && middle != []
    ensures SplitNumbered(prefix, suffix, NumberedName(prefix, suffix, digits, middle))
         == if |digits| <= MAX_DIGITS then Some((Value(digits), middle)) else None
  {
    var rest := digits + ([DOT] + (middle + suffix));
    NumberedTail(digits, middle, suffix, rest);
    Slices(middle, suffix);
    EndsWithKeeps([DOT], middle + suffix, suffix);
    EndsWithKeeps(digits, [DOT] + (middle + suffix), suffix);
    EndsWithKeeps(prefix, rest, suffix);
    Slices(prefix, rest);
  }

  lemma {:induction false} LeadingZeroIsIdle(digits: Text)
    requires AllDigits(digits)
    ensures AllDigits([0x30] + digits) && Value([0x30] + digits) == Value(digits)
  {
    var padded := [0x30] + digits;
    if digits == [] {
      assert padded[..0] == [];
    } else {
      LeadingZeroIsIdle(digits[..|digits| - 1]);
      assert padded[..|padded| - 1] == [0x30] + digits[..|digits| - 1];
    }
  }

  // Collisions

  /** Both names are read as the same part of the same layer. */
  predicate SamePart(a: Text, b: Text) {
    SplitNumbered(LAYERS, WEIGHT, a).Some? && SplitNumbered(LAYERS, WEIGHT, a) == SplitNumbered(LAYERS, WEIGHT, b)
  }

  lemma SingleNamesStandApart()
    ensures !(LAYERS <= EMBEDDING) && !(LAYERS <= NORM)
    ensures TOKEN_EMBEDDING != OUTPUT_NORM && !(BLOCK <= TOKEN_EMBEDDING) && !(BLOCK <= OUTPUT_NORM)
  {
    assert LAYERS[6] != EMBEDDING[6] && LAYERS[6] != NORM[6];
    assert BLOCK[0] != TOKEN_EMBEDDING[0] && BLOCK[0] != OUTPUT_NORM[0];
    assert TOKEN_EMBEDDING[0] != OUTPUT_NORM[0];
  }

  predicate DistinctValues(table: seq<(Text, Text)>) {
    forall i, j :: 0 <= i < j < |table| ==> table[i].1 != table[j].1
  }

  lemma LookupIsInjective(table: seq<(Text, Text)>, x: Text, y: Text)
    requires DistinctValues(table) && Lookup(table, x).Some? && Lookup(table, x) == Lookup(table, y)
    ensures x == y
  {
    var i := LookupFinds(table, x);
    var j := LookupFinds(table, y);
    assert i == j;
  }

  lemma TableIsDistinct()
    ensures DistinctValues(Table())
  {
    var t := Table();
    assert |t[0].1| == 9;
    assert |t[1].1| == |t[8].1| == |t[10].1| == 8;
    assert t[1].1[4] == 0x6E && t[8].1[4] == 0x67 && t[10].1[4] == 0x64;
    assert |t[2].1| == |t[3].1| == |t[4].1| == |t[9].1| == 6;
    assert t[2].1[5] == 0x71 && t[3].1[5] == 0x6B && t[4].1[5] == 0x76 && t[9].1[5] == 0x70;
    assert |t[5].1| == |t[6].1| == |t[7].1| == 11;
    assert t[5].1[5] == 0x6F && t[6].1[5] == 0x71 && t[7].1[5] == 0x6B;
  }

  lemma PartsAreNamed(i: nat)
    requires i < |Table()|
    ensures Table()[i].1 != []
  {}

  /** A converted layer name tells the layer and the converted part. */
  lemma LayerNameSplits(name: Text)
    requires SplitNumbered(LAYERS, WEIGHT, name).Some? && TensorName(name).Some?
    ensures var parts := SplitNumbered(LAYERS, WEIGHT, name).value;
      && Lookup(Table(), parts.1).Some? && Lookup(Table(), parts.1).value != []
      && SplitNumbered(BLOCK, WEIGHT, TensorName(name).value) == Some((parts.0, Lookup(Table(), parts.1).value))
  {
    SingleNamesStandApart();
    var parts := SplitNumbered(LAYERS, WEIGHT, name).value;
    var i := LookupFinds(Table(), parts.1);
    PartsAreNamed(i);
    DecimalReadsBack(parts.0);
    DecimalLength(parts.0, 2);
    SplitOfNumberedName(BLOCK, WEIGHT, Decimal(parts.0), Table()[i].1);
  }

  /** Exactly which names collide: two accepted names are converted to one if and only if they are the same name or are
      read as the same part of the same layer. */
  lemma CollisionIsExact(a: Text, b: Text)
    requires TensorName(a).Some? && TensorName(b).Some?
    ensures TensorName(a) == TensorName(b) <==> a == b || SamePart(a, b)
  {
    SingleNamesStandApart();
    var p, q := SplitNumbered(LAYERS, WEIGHT, a), SplitNumbered(LAYERS, WEIGHT, b);
    if p.Some? {
      LayerNameSplits(a);
    }
    if q.Some? {
      LayerNameSplits(b);
    }
    if p.Some? && q.Some? && TensorName(a) == TensorName(b) {
      TableIsDistinct();
      LookupIsInjective(Table(), p.value.1, q.value.1);
    }
  }

  /** Digit strings of one length are told apart by their values. */
  lemma {:induction false} ValueIsInjective(x: Text, y: Text)
    requires AllDigits(x) && AllDigits(y) && |x| == |y| && Value(x) == Value(y)
    ensures x == y
  {
    if x == [] {
    } else {
      var m := |x| - 1;
      assert x[m] - 0x30 == Value(x) % 10 && y[m] - 0x30 == Value(y) % 10;
      ValueIsInjective(x[..m], y[..m]);
      assert x == x[..m] + [x[m]] && y == y[..m] + [y[m]];
    }
  }

  lemma SplitTailMeans(suffix: Text, rest: Text, n: nat, part: Text)
    requires SplitTail(suffix, rest).Some? && n == LeadingDigits(rest) && part == SplitTail(suffix, rest).value.1
    ensures 0 < n <= MAX_DIGITS && n + 1 + |suffix| < |rest| && rest[n] == DOT && part == rest[n + 1..|rest| - |suffix|]
  {}

  lemma SuffixOfSuffix(name: Text, rest: Text, suffix: Text)
    requires EndsWith(name, suffix) && EndsWith(name, rest) && |suffix| <= |rest|
    ensures rest[|rest| - |suffix|..] == suffix
  {
    assert name[|name| - |rest|..][|rest| - |suffix|..] == name[|name| - |suffix|..];
  }

  lemma Reassemble<T>(s: seq<T>, n: nat, m: nat)
    requires n < m <= |s|
    ensures s == s[..n] + ([s[n]] + (s[n + 1..m] + s[m..]))
  {}

  lemma TailIsWhole(suffix: Text, rest: Text, name: Text, n: nat, part: Text)
    requires n + 1 + |suffix| < |rest| && rest[n] == DOT && part == rest[n + 1..|rest| - |suffix|]
    requires EndsWith(name, suffix) && EndsWith(name, rest)
    ensures rest == rest[..n] + ([DOT] + (part + suffix))
  {
    SuffixOfSuffix(name, rest, suffix);
    Reassemble(rest, n, |rest| - |suffix|);
  }

  /** A name of the numbered form is put together from what is read of it. */
  lemma NumberedFormIsWhole(prefix: Text, suffix: Text, name: Text) returns (digits: Text)
    requires SplitNumbered(prefix, suffix, name).Some?
    ensures 0 < |digits| <= MAX_DIGITS && AllDigits(digits)
    ensures Value(digits) == SplitNumbered(prefix, suffix, name).value.0
    ensures SplitNumbered(prefix, suffix, name).value.1 != []
    ensures name == NumberedName(prefix, suffix, digits, SplitNumbered(prefix, suffix, name).value.1)
  {
    var rest := name[|prefix|..];
    var n, part := LeadingDigits(rest), SplitTail(suffix, rest).value.1;
    digits := rest[..n];
    SplitTailMeans(suffix, rest, n, part);
    TailIsWhole(suffix, rest, name, n, part);
    assert name == prefix + rest;
  }

  /** A run of the digit zero. */
  function Zeros(n: nat): (t: Text)
    ensures |t| == n && AllDigits(t)
  {
    seq(n, _ => 0x30)
  }

  lemma {:induction false} ZerosAreIdle(n: nat, digits: Text)
    requires AllDigits(digits)
    ensures AllDigits(Zeros(n) + digits) && Value(Zeros(n) + digits) == Value(digits)
    decreases n
  {
    if n == 0 {
      assert Zeros(0) + digits == digits;
    } else {
      ZerosAreIdle(n - 1, digits);
      LeadingZeroIsIdle(Zeros(n - 1) + digits);
      assert Zeros(n) + digits == [0x30] + (Zeros(n - 1) + digits);
    }
  }

  lemma NumberedLength(prefix: Text, suffix: Text, digits: Text, middle: Text)
    ensures |NumberedName(prefix, suffix, digits, middle)| == |prefix| + |digits| + 1 + |middle| + |suffix|
  {}

  /** Leading zeros are all that is lost: of two names read as the same part, the longer is the shorter with zeros put
      before its number. */
  lemma OnlyZerosAreLost(a: Text, b: Text) returns (digits: Text, middle: Text)
    requires SamePart(a, b) && |a| <= |b|
    ensures digits != [] && AllDigits(digits) && middle != [] && |digits| + |b| - |a| <= MAX_DIGITS
    ensures a == NumberedName(LAYERS, WEIGHT, digits, middle)
    ensures b == NumberedName(LAYERS, WEIGHT, Zeros(|b| - |a|) + digits, middle)
  {
    digits := NumberedFormIsWhole(LAYERS, WEIGHT, a);
    middle := SplitNumbered(LAYERS, WEIGHT, a).value.1;
    var longer := NumberedFormIsWhole(LAYERS, WEIGHT, b);
    NumberedLength(LAYERS, WEIGHT, digits, middle);
    NumberedLength(LAYERS, WEIGHT, longer, middle);
    ZerosAreIdle(|b| - |a|, digits);
    ValueIsInjective(longer, Zeros(|b| - |a|) + digits);
  }

  /** Which numbered names are accepted. */
  lemma AcceptedLayers(digits: Text, middle: Text)
    requires digits != [] && AllDigits(digits) && middle != []
    ensures TensorName(NumberedName(LAYERS, WEIGHT, digits, middle)).Some?
       <==> |digits| <= MAX_DIGITS && Value(digits) < 36 && Lookup(Table(), middle).Some?
  {
    SplitOfNumberedName(LAYERS, WEIGHT, digits, middle);
    SingleNamesStandApart();
  }

  /** And they are always lost, as far as Python reads the number: zeros before it change the name, not whether it is
      accepted and not what it is converted to. With more digits than that the name is refused. */
  lemma LeadingZerosCollide(digits: Text, middle: Text, n: nat)
    requires digits != [] && AllDigits(digits) && middle != [] && n > 0
    ensures var plain := NumberedName(LAYERS, WEIGHT, digits, middle);
            var padded := NumberedName(LAYERS, WEIGHT, Zeros(n) + digits, middle);
            && padded != plain
            && (if n + |digits| <= MAX_DIGITS then SamePart(padded, plain) && TensorName(padded) == TensorName(plain)
                else TensorName(padded).None?)
  {
    ZerosAreIdle(n, digits);
    SplitOfNumberedName(LAYERS, WEIGHT, digits, middle);
    SplitOfNumberedName(LAYERS, WEIGHT, Zeros(n) + digits, middle);
    NumberedLength(LAYERS, WEIGHT, digits, middle);
    NumberedLength(LAYERS, WEIGHT, Zeros(n) + digits, middle);
    SingleNamesStandApart();
  }

  /** The smallest such pair: both names are accepted and become one. */
  lemma SomeNamesCollide() returns (plain: Text, padded: Text)
    ensures plain != padded && TensorName(plain).Some? && TensorName(plain) == TensorName(padded)
  {
    var middle := Table()[0].0;
    plain := NumberedName(LAYERS, WEIGHT, [0x30], middle);
    padded := NumberedName(LAYERS, WEIGHT, Zeros(1) + [0x30], middle);
    assert [0x30][..0] == [] && Value([0x30]) == 0;
    assert Lookup(Table(), middle).Some?;
    LeadingZerosCollide([0x30], middle, 1);
    AcceptedLayers([0x30], middle);
  }
}
