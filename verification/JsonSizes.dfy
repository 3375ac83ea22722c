/** How many bytes a compact encoding takes: the sum of its parts, whatever their order. */
module JsonSizes {
  import opened Unicode
  import opened JsonText
  import opened JsonValues

  function Size(v: Json): (n: nat) {
    Bytes(Canonical(v))
  }

  function MemberSize(m: (Text, Json)): (n: nat) {
    Bytes(Dumps(m.0)) + 1 + Size(m.1)
  }

  function Total(sizes: seq<nat>): (n: nat) {
    if sizes == [] then 0 else Total(sizes[..|sizes| - 1]) + sizes[|sizes| - 1]
  }

  function Commas(n: nat): (k: nat) {
    if n == 0 then 0 else n - 1
  }

  // Sums

  lemma {:induction false} TotalConcat(a: seq<nat>, b: seq<nat>)
    ensures Total(a + b) == Total(a) + Total(b)
    decreases |b|
  {
    if b == [] {
      assert a + b == a;
    } else {
      TotalConcat(a, b[..|b| - 1]);
      assert (a + b)[..|a + b| - 1] == a + b[..|b| - 1];
    }
  }

  lemma TotalOfOne(n: nat)
    ensures Total([n]) == n
  {
    assert [n][..0] == [];
  }

  // Joined texts

  lemma OneByte(c: Code)
    requires c <= 0x7F
    ensures Bytes([c]) == 1
  {
    assert [c][..0] == [];
  }

  lemma {:induction false} JoinSize(parts: seq<Text>, sizes: seq<nat>)
    requires |sizes| == |parts| && forall i :: 0 <= i < |parts| ==> sizes[i] == Bytes(parts[i])
    ensures Bytes(Join(parts)) == Total(sizes) + Commas(|parts|)
    decreases |parts|
  {
    if parts == [] {
    } else if |parts| == 1 {
      assert sizes == [sizes[0]];
      TotalOfOne(sizes[0]);
    } else {
      var n := |parts| - 1;
      JoinSize(parts[..n], sizes[..n]);
      OneByte(0x2C);
      BytesConcat([0x2C], parts[n]);
      BytesConcat(Join(parts[..n]), [0x2C] + parts[n]);
    }
  }

  lemma Bracketed(open: Code, inside: Text, close: Code)
    requires open <= 0x7F && close <= 0x7F
    ensures Bytes([open] + inside + [close]) == 2 + Bytes(inside)
  {
    OneByte(open);
    OneByte(close);
    BytesConcat([open], inside);
    BytesConcat([open] + inside, [close]);
  }

  // Containers

  function ItemSizes(items: seq<Json>): (r: seq<nat>)
    ensures |r| == |items| && forall i :: 0 <= i < |items| ==> r[i] == Size(items[i])
  {
    seq(|items|, i requires 0 <= i < |items| => Size(items[i]))
  }

  function MemberSizes(members: seq<(Text, Json)>): (r: seq<nat>)
    ensures |r| == |members| && forall i :: 0 <= i < |members| ==> r[i] == MemberSize(members[i])
  {
    seq(|members|, i requires 0 <= i < |members| => MemberSize(members[i]))
  }

  lemma ArraySize(items: seq<Json>)
    ensures Size(Array(items)) == 2 + Total(ItemSizes(items)) + Commas(|items|)
  {
    var parts := seq(|items|, i requires 0 <= i < |items| => Canonical(items[i]));
    JoinSize(parts, ItemSizes(items));
    Bracketed(0x5B, Join(parts), 0x5D);
  }

  lemma OneMoreMember(members: seq<(Text, Json)>, m: (Text, Json))
    ensures Total(MemberSizes(members + [m])) == Total(MemberSizes(members)) + MemberSize(m)
  {
    assert MemberSizes(members + [m]) == MemberSizes(members) + [MemberSize(m)];
    TotalConcat(MemberSizes(members), [MemberSize(m)]);
    TotalOfOne(MemberSize(m));
  }

  lemma MemberTextSize(m: (Text, Json))
    ensures Bytes(MemberText(m)) == MemberSize(m)
  {
    OneByte(0x3A);
    BytesConcat([0x3A], Canonical(m.1));
    BytesConcat(Dumps(m.0), [0x3A] + Canonical(m.1));
  }

  lemma ObjectSize(members: seq<(Text, Json)>)
    ensures Size(Object(members)) == 2 + Total(MemberSizes(members)) + Commas(|members|)
  {
    var parts := seq(|members|, i requires 0 <= i < |members| => MemberText(members[i]));
    forall i | 0 <= i < |members| ensures MemberSizes(members)[i] == Bytes(parts[i]) {
      MemberTextSize(members[i]);
    }
    JoinSize(parts, MemberSizes(members));
    Bracketed(0x7B, Join(parts), 0x7D);
  }

  // Order

  function Drop<T>(s: seq<T>, i: nat): (r: seq<T>)
    requires i < |s|
    ensures |r| == |s| - 1
  {
    s[..i] + s[i + 1..]
  }

  lemma DropMultiset<T>(s: seq<T>, i: nat)
    requires i < |s|
    ensures multiset(Drop(s, i)) == multiset(s) - multiset{s[i]}
  {
    assert s == s[..i] + [s[i]] + s[i + 1..];
  }

  lemma {:induction false} TotalDrop(sizes: seq<nat>, i: nat)
    requires i < |sizes|
    ensures Total(sizes) == Total(Drop(sizes, i)) + sizes[i]
    decreases |sizes|
  {
    var n := |sizes| - 1;
    var rest := Drop(sizes, i);
    if i == n {
      assert rest == sizes[..n];
    } else {
      TotalDrop(sizes[..n], i);
      assert rest[..n - 1] == Drop(sizes[..n], i) && rest[n - 1] == sizes[n];
    }
  }

  lemma SizesDrop(members: seq<(Text, Json)>, i: nat)
    requires i < |members|
    ensures MemberSizes(Drop(members, i)) == Drop(MemberSizes(members), i)
  {}

  lemma {:induction false} TotalOfPermutation(a: seq<(Text, Json)>, b: seq<(Text, Json)>)
    requires multiset(a) == multiset(b)
    ensures |a| == |b| && Total(MemberSizes(a)) == Total(MemberSizes(b))
    decreases |a|
  {
    assert |multiset(a)| == |a| && |multiset(b)| == |b|;
    if a == [] {
    } else {
      assert a[0] in multiset(b);
      var i :| 0 <= i < |b| && b[i] == a[0];
      DropMultiset(a, 0);
      DropMultiset(b, i);
      TotalOfPermutation(Drop(a, 0), Drop(b, i));
      SizesDrop(a, 0);
      SizesDrop(b, i);
      TotalDrop(MemberSizes(a), 0);
      TotalDrop(MemberSizes(b), i);
    }
  }

  /** The order of the members of an object changes its encoding and not the length of it. */
  lemma OrderIsIdle(a: seq<(Text, Json)>, b: seq<(Text, Json)>)
    requires multiset(a) == multiset(b)
    ensures Size(Object(a)) == Size(Object(b))
  {
    TotalOfPermutation(a, b);
    ObjectSize(a);
    ObjectSize(b);
  }

  // Bounds

  /** A text of ASCII characters takes one byte for each. */
  lemma {:induction false} NarrowBytes(t: Text)
    requires forall i :: 0 <= i < |t| ==> t[i] <= 0x7F
    ensures Bytes(t) == |t|
    decreases |t|
  {
    if t == [] {
    } else {
      NarrowBytes(t[..|t| - 1]);
    }
  }

  lemma EscapeWithin(c: Code)
    ensures Bytes(Escaped(c)) <= 6
  {
    var t := Escaped(c);
    if |t| == 1 {
      assert t[..0] == [];
    } else {
      NarrowBytes(t);
    }
  }

  lemma {:induction false} EscapedWithin(t: Text)
    ensures Bytes(EscapeAll(t)) <= 6 * |t|
    decreases |t|
  {
    if t == [] {
    } else {
      EscapedWithin(t[1..]);
      EscapeWithin(t[0]);
      BytesConcat(Escaped(t[0]), EscapeAll(t[1..]));
    }
  }

  lemma StringWithin(t: Text)
    ensures Bytes(Dumps(t)) <= 2 + 6 * |t|
  {
    EscapedWithin(t);
    Bracketed(QUOTE, EscapeAll(t), QUOTE);
  }

  lemma {:induction false} TotalWithin(sizes: seq<nat>, bound: nat)
    requires forall i :: 0 <= i < |sizes| ==> sizes[i] <= bound
    ensures Total(sizes) <= |sizes| * bound
    decreases |sizes|
  {
    if sizes == [] {
    } else {
      TotalWithin(sizes[..|sizes| - 1], bound);
    }
  }

  lemma ArrayWithin(items: seq<Json>, bound: nat)
    requires forall i :: 0 <= i < |items| ==> Size(items[i]) <= bound
    ensures Size(Array(items)) <= 2 + |items| * bound + |items|
  {
    ArraySize(items);
    TotalWithin(ItemSizes(items), bound);
  }

  /** An object with short keys. */
  lemma ObjectWithin(members: seq<(Text, Json)>, bound: nat)
    requires forall i :: 0 <= i < |members| ==> |members[i].0| <= 32 && Size(members[i].1) <= bound
    ensures Size(Object(members)) <= 2 + |members| * (195 + bound) + |members|
  {
    ObjectSize(members);
    forall i | 0 <= i < |members| ensures MemberSizes(members)[i] <= 195 + bound {
      StringWithin(members[i].0);
    }
    TotalWithin(MemberSizes(members), 195 + bound);
  }
}
