/** Checking that a converted model file holds exactly the source tensors: byte for byte, or promoted exactly. */
module TensorConversion {
  import opened Unicode
  import opened TensorNames

  type byte = b: int | 0 <= b < 256

  const CHUNK := 65536

  /** A source tensor: its element type, shape and byte range after the header. */
  datatype Source = Source(bf16: bool, shape: seq<int>, begin: int, end: int)

  datatype Kind = F32 | BF16 | Other

  /** A converted tensor as the reader gives it; its shape is stored in reverse. */
  datatype Target = Target(name: Text, shape: seq<int>, elements: int, kind: Kind, data: seq<byte>)

  function Product(shape: seq<int>): (n: int) {
    if shape == [] then 1 else Product(shape[..|shape| - 1]) * shape[|shape| - 1]
  }

  function Reversed(shape: seq<int>): (r: seq<int>)
    ensures |r| == |shape| && forall i :: 0 <= i < |shape| ==> r[i] == shape[|shape| - 1 - i]
  {
    seq(|shape|, i requires 0 <= i < |shape| => shape[|shape| - 1 - i])
  }

  const NORM_SUFFIX: Text := Ascii("_norm.weight")

  /** Vectors and normalisation weights are promoted; everything else keeps its bits. */
  function ExpectedKind(source: Source, target: Target): (k: Kind) {
    if |source.shape| == 1 || EndsWith(target.name, NORM_SUFFIX) then F32 else BF16
  }

  /** Bytes that `count` elements take. */
  function Size(k: Kind, count: int): (n: int) {
    if k.F32? then 4 * count else 2 * count
  }

  /** The checks before any byte is compared. */
  predicate WellDescribed(source: Source, target: Target) {
    && source.bf16
    && 1 <= |source.shape| <= 2
    && (forall i :: 0 <= i < |source.shape| ==> 0 < source.shape[i] <= 151936)
    && 0 <= source.begin < source.end
    && source.end - source.begin == Product(source.shape) * 2
    && target.shape == Reversed(source.shape)
    && target.elements == Product(source.shape)
    && target.kind == ExpectedKind(source, target)
    && |target.data| == Size(target.kind, Product(source.shape))
  }

  ghost predicate IsNorm(name: Text) {
    exists stem: Text :: name == stem + Ascii("_norm.weight")
  }

  /** The same said flat: `rows` and `columns` up to 151936 of BF16 elements, a vector having one column; their bytes in
      range; and a converted tensor with the sides swapped, as many elements, and the element type and bytes due to
      it. */
  ghost predicate Describes(source: Source, target: Target, rows: int, columns: int) {
    var count, vector := rows * columns, |source.shape| == 1;
    && source.bf16
    && source.shape == (if vector then [rows] else [rows, columns]) && (vector ==> columns == 1)
    && 1 <= rows <= 151936 && 1 <= columns <= 151936
    && 0 <= source.begin && source.end == source.begin + 2 * count
    && target.shape == (if vector then [rows] else [columns, rows])
    && target.elements == count
    && (if vector || IsNorm(target.name)
        then target.kind == F32 && |target.data| == 4 * count
        else target.kind == BF16 && |target.data| == 2 * count)
  }

  lemma NormsEndAlike(name: Text)
    ensures IsNorm(name) <==> EndsWith(name, NORM_SUFFIX)
  {
    if EndsWith(name, NORM_SUFFIX) {
      assert name == name[..|name| - |NORM_SUFFIX|] + NORM_SUFFIX;
    }
    forall stem: Text | name == stem + NORM_SUFFIX ensures EndsWith(name, NORM_SUFFIX) {
      assert (stem + NORM_SUFFIX)[|stem|..] == NORM_SUFFIX;
    }
  }

  lemma ProductOfTwo(shape: seq<int>)
    requires 1 <= |shape| <= 2
    ensures Product(shape) == if |shape| == 1 then shape[0] else shape[0] * shape[1]
  {
    assert Product(shape[..1]) == shape[0] by {
      assert shape[..1][..0] == [];
    }
    assert |shape| == 1 ==> shape[..1] == shape;
  }

  /** The checks come to exactly that. */
  lemma DescriptionIsExact(source: Source, target: Target)
    ensures WellDescribed(source, target)
       <==> source.shape != []
            && Describes(source, target, source.shape[0], if |source.shape| == 2 then source.shape[1] else 1)
  {
    NormsEndAlike(target.name);
    if 1 <= |source.shape| <= 2 {
      ProductOfTwo(source.shape);
      assert |source.shape| == 1 ==> Reversed(source.shape) == [source.shape[0]] == source.shape;
      assert |source.shape| == 2 ==> Reversed(source.shape) == [source.shape[1], source.shape[0]]
                                     && source.shape == [source.shape[0], source.shape[1]];
      if |source.shape| == 2 && source.shape[0] > 0 && source.shape[1] > 0 {
        assert source.shape[0] * source.shape[1] > 0;
      }
    }
  }

  // What the bytes must be

  /** Each two-byte element becomes the four-byte element with the same bits on top and zeros below. */
  function Promoted(raw: seq<byte>): (r: seq<byte>)
    requires |raw| % 2 == 0
    ensures |r| == 2 * |raw|
  {
    seq(2 * |raw|, i requires 0 <= i < 2 * |raw| => if i % 4 < 2 then 0 else raw[i / 4 * 2 + i % 4 - 2])
  }

  function Expected(k: Kind, raw: seq<byte>): (r: seq<byte>)
    requires |raw| % 2 == 0
  {
    if k.F32? then Promoted(raw) else raw
  }

  function Word(bytes: seq<byte>): (n: nat) {
    if bytes == [] then 0 else bytes[0] + 256 * Word(bytes[1..])
  }

  lemma PromotedAt(raw: seq<byte>, i: nat)
    requires |raw| % 2 == 0 && 2 * i + 2 <= |raw|
    ensures Promoted(raw)[4 * i] == 0 && Promoted(raw)[4 * i + 1] == 0
    ensures Promoted(raw)[4 * i + 2] == raw[2 * i] && Promoted(raw)[4 * i + 3] == raw[2 * i + 1]
  {
    assert (4 * i + 2) / 4 == i && (4 * i + 3) / 4 == i;
  }

  lemma WordOfTwo(w: seq<byte>)
    requires |w| == 2
    ensures Word(w) as int == (w[0] as int) + 256 * (w[1] as int)
  {
    var tail := w[1..];
    assert Word(tail) == tail[0] + 256 * Word(tail[1..]);
  }

  lemma WordOfFour(w: seq<byte>)
    requires |w| == 4
    ensures Word(w) == Word(w[..2]) + 65536 * Word(w[2..])
  {
    var tail := w[1..];
    assert tail[1..] == w[2..];
    WordOfTwo(w[..2]);
    assert Word(tail) == tail[0] + 256 * Word(tail[1..]);
  }

  /** The promotion is exact: the 32-bit word is the 16-bit word shifted into the upper half. */
  lemma PromotionIsExact(raw: seq<byte>, i: nat)
    requires |raw| % 2 == 0 && 2 * i + 2 <= |raw|
    ensures Word(Promoted(raw)[4 * i..4 * i + 4]) == 65536 * Word(raw[2 * i..2 * i + 2])
  {
    var wide, narrow := Promoted(raw)[4 * i..4 * i + 4], raw[2 * i..2 * i + 2];
    PromotedAt(raw, i);
    assert wide[..2] == [0, 0] && wide[2..] == narrow;
    WordOfTwo(wide[..2]);
    WordOfFour(wide);
  }

  lemma {:induction false} ProductIsPositive(shape: seq<int>)
    requires forall i :: 0 <= i < |shape| ==> 0 < shape[i]
    ensures Product(shape) > 0
  {
    if shape == [] {
    } else {
      ProductIsPositive(shape[..|shape| - 1]);
    }
  }

  // The comparison

  /** Reading stops at the end of the file. */
  function Read(file: seq<byte>, position: nat, count: nat): (r: seq<byte>) {
    if position >= |file| then []
    else if position + count > |file| then file[position..]
    else file[position..position + count]
  }

  method Promote(raw: seq<byte>) returns (promoted: array<byte>)
    requires |raw| % 2 == 0
    ensures fresh(promoted) && promoted[..] == Promoted(raw)
  {
    promoted := new byte[2 * |raw|](_ => 0);
    for index := 0 to |raw| / 2
      invariant forall i :: 0 <= i < 4 * index ==> promoted[i] == Promoted(raw)[i]
      invariant forall i :: 4 * index <= i < promoted.Length ==> promoted[i] == 0
    {
      promoted[index * 4 + 2] := raw[index * 2];
      promoted[index * 4 + 3] := raw[index * 2 + 1];
    }
  }

  /** The target holds exactly the source's bytes, promoted where promotion is due, and the file has them all. */
  predicate Faithful(file: seq<byte>, offset: nat, source: Source, target: Target) {
    && WellDescribed(source, target)
    && offset + source.end <= |file|
    && target.data == Expected(target.kind, file[offset + source.begin..offset + source.end])
  }

  /** Where byte `i` of the expected data comes from, counted from the tensor's first byte; the zero bytes of a
      promotion come from nowhere. */
  predicate IsPadding(k: Kind, i: nat) {
    k.F32? && i % 4 < 2
  }

  function Origin(k: Kind, i: nat): (p: nat)
    requires !IsPadding(k, i)
  {
    if k.F32? then i / 4 * 2 + i % 4 - 2 else i
  }

  /** Byte `i` of the target is the one the file calls for. */
  predicate ByteAgrees(file: seq<byte>, first: nat, target: Target, i: nat)
    requires i < |target.data|
  {
    if IsPadding(target.kind, i) then target.data[i] == 0
    else first + Origin(target.kind, i) < |file| && target.data[i] == file[first + Origin(target.kind, i)]
  }

  ghost predicate Agrees(file: seq<byte>, first: nat, target: Target, low: int, high: int) {
    forall i :: low <= i < high && 0 <= i < |target.data| ==> ByteAgrees(file, first, target, i)
  }

  lemma StretchByte(file: seq<byte>, first: nat, k: Kind, start: nat, count: nat, j: nat)
    requires first + 2 * (start + count) <= |file| && j < Size(k, count)
    ensures (2 * count) % 2 == 0
    ensures IsPadding(k, Size(k, start) + j) <==> IsPadding(k, j)
    ensures !IsPadding(k, j) ==> Origin(k, Size(k, start) + j) == 2 * start + Origin(k, j) < 2 * (start + count)
    ensures var raw := file[first + 2 * start..first + 2 * (start + count)];
            Expected(k, raw)[j] == if IsPadding(k, j) then 0 else file[first + 2 * start + Origin(k, j)]
  {
    if k.F32? {
      assert (4 * start + j) / 4 == start + j / 4 && (4 * start + j) % 4 == j % 4;
    }
  }

  /** Equality with the expected bytes of a stretch of the file is byte-by-byte agreement over that stretch. */
  lemma StretchAgrees(file: seq<byte>, first: nat, target: Target, start: nat, count: nat)
    requires first + 2 * (start + count) <= |file| && Size(target.kind, start + count) <= |target.data|
    ensures (2 * count) % 2 == 0
    ensures target.data[Size(target.kind, start)..Size(target.kind, start + count)]
         == Expected(target.kind, file[first + 2 * start..first + 2 * (start + count)])
       <==> Agrees(file, first, target, Size(target.kind, start), Size(target.kind, start + count))
  {
    var k := target.kind;
    var part := target.data[Size(k, start)..Size(k, start + count)];
    var raw := file[first + 2 * start..first + 2 * (start + count)];
    var due := Expected(k, raw);
    assert |part| == |due| == Size(k, count);
    forall j | 0 <= j < |part| ensures part[j] == due[j] <==> ByteAgrees(file, first, target, Size(k, start) + j) {
      StretchByte(file, first, k, start, count, j);
    }
    if Agrees(file, first, target, Size(k, start), Size(k, start + count)) {
      assert part == due;
    }
    if part == due {
      forall i | Size(k, start) <= i < Size(k, start + count) ensures ByteAgrees(file, first, target, i) {
        assert part[i - Size(k, start)] == due[i - Size(k, start)];
      }
    }
  }

  /** Past the end of the file there is nothing to agree with. */
  lemma ShortFileDisagrees(file: seq<byte>, first: nat, target: Target, start: nat, count: nat)
    requires count > 0 && first + 2 * (start + count) > |file| && Size(target.kind, start + count) <= |target.data|
    ensures !Agrees(file, first, target, Size(target.kind, start), Size(target.kind, start + count))
  {
    var i := Size(target.kind, start + count) - 1;
    if target.kind.F32? {
      assert i / 4 == start + count - 1 && i % 4 == 3;
    }
    assert Origin(target.kind, i) == 2 * (start + count) - 1;
    assert !ByteAgrees(file, first, target, i);
  }

  lemma FaithfulIsAgreement(file: seq<byte>, offset: nat, source: Source, target: Target)
    requires WellDescribed(source, target)
    ensures Faithful(file, offset, source, target) <==> Agrees(file, offset + source.begin, target, 0, |target.data|)
  {
    ProductIsPositive(source.shape);
    var first, count := offset + source.begin, Product(source.shape);
    if offset + source.end <= |file| {
      StretchAgrees(file, first, target, 0, count);
      assert target.data[0..|target.data|] == target.data;
    } else {
      ShortFileDisagrees(file, first, target, 0, count);
    }
  }

  method CompareChunk(file: seq<byte>, first: nat, target: Target, start: nat, elements: nat) returns (ok: bool)
    requires elements > 0 && Size(target.kind, start + elements) <= |target.data|
    ensures ok <==> Agrees(file, first, target, Size(target.kind, start), Size(target.kind, start + elements))
  {
    var raw := Read(file, first + 2 * start, elements * 2);
    if |raw| != elements * 2 {
      ShortFileDisagrees(file, first, target, start, elements);
      return false;
    }
    StretchAgrees(file, first, target, start, elements);
    var chunk := raw;
    if target.kind.F32? {
      var promoted := Promote(raw);
      chunk := promoted[..];
    }
    ok := target.data[Size(target.kind, start)..Size(target.kind, start + elements)] == chunk;
  }

  /** Chunk by chunk, in bounded memory, the comparison succeeds if and only if the whole tensor is faithful. */
  method CompareTensor(file: seq<byte>, offset: nat, source: Source, target: Target) returns (ok: bool)
    ensures ok <==> Faithful(file, offset, source, target)
  {
    if !WellDescribed(source, target) {
      return false;
    }
    FaithfulIsAgreement(file, offset, source, target);
    ProductIsPositive(source.shape);
    var count: nat := Product(source.shape);
    var first := offset + source.begin;
    var start := 0;
    while start < count
      invariant 0 <= start <= count
      invariant Agrees(file, first, target, 0, Size(target.kind, start))
    {
      var elements := if count - start < CHUNK then count - start else CHUNK;
      ok := CompareChunk(file, first, target, start, elements);
      if !ok {
        return;
      }
      start := start + elements;
    }
    ok := true;
  }

  // The set of tensors

  /** One tensor of the source index: its name, where it lies, and its description. */
  datatype Entry = Entry(name: Text, file: seq<byte>, offset: nat, source: Source)

  type Renaming = Text -> Option<Text>

  /** The converted tensor that an entry is checked against is faithful to it. */
  predicate Matches(rename: Renaming, e: Entry, tensors: map<Text, Target>) {
    && rename(e.name).Some?
    && rename(e.name).value in tensors
    && Faithful(e.file, e.offset, e.source, tensors[rename(e.name).value])
  }

  predicate OneToOne(rename: Renaming, entries: seq<Entry>) {
    forall i, j :: 0 <= i < j < |entries| ==> rename(entries[i].name) != rename(entries[j].name)
  }

  predicate Names(rename: Renaming, entries: seq<Entry>, t: Text) {
    exists i :: 0 <= i < |entries| && rename(entries[i].name) == Some(t)
  }

  /** Renaming is a bijection from the entries onto the converted tensors, and each pair is faithful. */
  ghost predicate Corresponds(rename: Renaming, entries: seq<Entry>, tensors: map<Text, Target>) {
    && (forall i :: 0 <= i < |entries| ==> Matches(rename, entries[i], tensors))
    && OneToOne(rename, entries)
    && (forall t :: t in tensors ==> Names(rename, entries, t))
  }

  lemma NamesGrow(rename: Renaming, entries: seq<Entry>, n: nat, t: Text)
    requires n < |entries|
    ensures Names(rename, entries[..n + 1], t) <==> Names(rename, entries[..n], t) || rename(entries[n].name) == Some(t)
  {
    var less, more := entries[..n], entries[..n + 1];
    if i :| 0 <= i < |less| && rename(less[i].name) == Some(t) {
      assert more[i] == less[i];
    }
    if i :| 0 <= i < |more| && rename(more[i].name) == Some(t) {
      assert i < n ==> less[i] == more[i];
    }
    assert more[n] == entries[n];
  }

  lemma OneToOneGrows(rename: Renaming, entries: seq<Entry>, n: nat)
    requires n < |entries| && OneToOne(rename, entries[..n])
    requires rename(entries[n].name).Some? && !Names(rename, entries[..n], rename(entries[n].name).value)
    ensures OneToOne(rename, entries[..n + 1])
  {
    var less, more := entries[..n], entries[..n + 1];
    forall i, j | 0 <= i < j < |more| ensures rename(more[i].name) != rename(more[j].name) {
      assert more[i] == less[i];
      if j < n {
        assert more[j] == less[j];
      }
    }
  }

  /** The first `n` entries are done and their targets are exactly `checked`. */
  ghost predicate Progress(rename: Renaming, entries: seq<Entry>, tensors: map<Text, Target>, n: nat,
                           checked: set<Text>)
    requires n <= |entries|
  {
    && (forall i :: 0 <= i < n ==> Matches(rename, entries[i], tensors))
    && OneToOne(rename, entries[..n])
    && (forall t :: t in checked <==> Names(rename, entries[..n], t))
    && checked <= tensors.Keys
  }

  lemma ProgressStep(rename: Renaming, entries: seq<Entry>, tensors: map<Text, Target>, n: nat, checked: set<Text>)
    requires n < |entries| && Progress(rename, entries, tensors, n, checked) && Matches(rename, entries[n], tensors)
    requires rename(entries[n].name).value !in checked
    ensures Progress(rename, entries, tensors, n + 1, checked + {rename(entries[n].name).value})
  {
    OneToOneGrows(rename, entries, n);
    forall t ensures t in checked + {rename(entries[n].name).value} <==> Names(rename, entries[..n + 1], t) {
      NamesGrow(rename, entries, n, t);
    }
  }

  lemma RepeatedTarget(rename: Renaming, entries: seq<Entry>, tensors: map<Text, Target>, n: nat, checked: set<Text>)
    requires n < |entries| && Progress(rename, entries, tensors, n, checked)
    requires rename(entries[n].name).Some? && rename(entries[n].name).value in checked
    ensures !OneToOne(rename, entries)
  {
    var less := entries[..n];
    assert Names(rename, less, rename(entries[n].name).value);
    var i :| 0 <= i < |less| && rename(less[i].name) == rename(entries[n].name);
    assert rename(entries[i].name) == rename(entries[n].name);
  }

  lemma ProgressDone(rename: Renaming, entries: seq<Entry>, tensors: map<Text, Target>, checked: set<Text>)
    requires Progress(rename, entries, tensors, |entries|, checked)
    ensures Corresponds(rename, entries, tensors) <==> checked == tensors.Keys
  {
    assert entries[..|entries|] == entries;
  }

  /** The pass over all entries succeeds if and only if the renaming, whatever it is, pairs entries and tensors one to
      one and each pair is faithful. */
  method VerifyTensorSet(rename: Renaming, entries: seq<Entry>, tensors: map<Text, Target>) returns (ok: bool)
    ensures ok <==> Corresponds(rename, entries, tensors)
  {
    var checked: set<Text> := {};
    for n := 0 to |entries|
      invariant Progress(rename, entries, tensors, n, checked)
    {
      var e := entries[n];
      var target := rename(e.name);
      if target.None? || target.value !in tensors {
        return false;
      }
      if target.value in checked {
        RepeatedTarget(rename, entries, tensors, n, checked);
        return false;
      }
      var same := CompareTensor(e.file, e.offset, e.source, tensors[target.value]);
      if !same {
        return false;
      }
      ProgressStep(rename, entries, tensors, n, checked);
      checked := checked + {target.value};
    }
    ProgressDone(rename, entries, tensors, checked);
    ok := checked == tensors.Keys;
  }

  /** The pass with the converter's own renaming. */
  method VerifyConversion(entries: seq<Entry>, tensors: map<Text, Target>) returns (ok: bool)
    ensures ok <==> Corresponds(TensorName, entries, tensors)
  {
    ok := VerifyTensorSet(TensorName, entries, tensors);
  }
}
