/** JSON values as the conversation code handles them: members, the compact encoding, and the depth of containers. */
module JsonValues {
  import opened Unicode
  import opened JsonText
  import opened Tables

  /** A number is kept as the text it prints as. */
  datatype Json =
    | Null
    | Bool(truth: bool)
    | Number(literal: Text)
    | String(text: Text)
    | Array(items: seq<Json>)
    | Object(members: seq<(Text, Json)>)

  const INFINITE: Text := Ascii("Infinity")

  /** No number in it has overflowed; nothing else is encoded. */
  predicate IsFinite(v: Json)
    decreases v
  {
    match v
    case Number(literal) => literal != INFINITE && literal != [0x2D] + INFINITE
    case Array(items) => forall i :: 0 <= i < |items| ==> IsFinite(items[i])
    case Object(members) => forall i :: 0 <= i < |members| ==> IsFinite(members[i].1)
    case _ => true
  }

  // Members

  /** The reader refuses a repeated key, so the first match is the only one. */
  function Get(v: Json, key: Text): (r: Option<Json>) {
    if v.Object? then Lookup(v.members, key) else None
  }

  /** An object with exactly these keys. */
  predicate HasFields(v: Json, keys: seq<Text>) {
    && v.Object?
    && (forall i :: 0 <= i < |keys| ==> Lookup(v.members, keys[i]).Some?)
    && (forall i :: 0 <= i < |v.members| ==> v.members[i].0 in keys)
  }

  // The compact encoding

  /** Texts separated by commas. */
  function Join(parts: seq<Text>): (t: Text) {
    if parts == [] then []
    else if |parts| == 1 then parts[0]
    else Join(parts[..|parts| - 1]) + ([0x2C] + parts[|parts| - 1])
  }

  function Canonical(v: Json): (t: Text)
    decreases v, 1
  {
    match v
    case Null => Ascii("null")
    case Bool(truth) => if truth then Ascii("true") else Ascii("false")
    case Number(literal) => literal
    case String(text) => Dumps(text)
    case Array(items) => [0x5B] + Join(seq(|items|, i requires 0 <= i < |items| => Canonical(items[i]))) + [0x5D]
    case Object(members) =>
      [0x7B] + Join(seq(|members|, i requires 0 <= i < |members| => MemberText(members[i]))) + [0x7D]
  }

  function MemberText(m: (Text, Json)): (t: Text)
    decreases m.1, 2
  {
    Dumps(m.0) + ([0x3A] + Canonical(m.1))
  }

  // Depth

  const MAX_DEPTH := 16

  predicate IsContainer(v: Json) {
    v.Array? || v.Object?
  }

  function Arity(v: Json): (n: nat) {
    if v.Array? then |v.items| else if v.Object? then |v.members| else 0
  }

  function Child(v: Json, i: nat): (c: Json)
    requires i < Arity(v)
    ensures c < v
  {
    if v.Array? then v.items[i] else v.members[i].1
  }

  /** Containers on the longest way down, scalars not counted. */
  function Nesting(v: Json): (n: nat)
    decreases v
  {
    if IsContainer(v) then 1 + Deepest(v, Arity(v)) else 0
  }

  function Deepest(v: Json, n: nat): (d: nat)
    requires n <= Arity(v)
    decreases v, n
  {
    if n == 0 then 0
    else
      var before, last := Deepest(v, n - 1), Nesting(Child(v, n - 1));
      if last > before then last else before
  }

  lemma {:induction false} DeepestIsBound(v: Json, n: nat, bound: nat)
    requires n <= Arity(v)
    ensures Deepest(v, n) <= bound <==> forall i :: 0 <= i < n ==> Nesting(Child(v, i)) <= bound
  {
    if n == 0 {
    } else {
      DeepestIsBound(v, n - 1, bound);
    }
  }

  function Nodes(v: Json): (n: nat)
    decreases v
  {
    1 + NodesBelow(v, Arity(v))
  }

  function NodesBelow(v: Json, n: nat): (m: nat)
    requires n <= Arity(v)
    decreases v, n
  {
    if n == 0 then 0 else NodesBelow(v, n - 1) + Nodes(Child(v, n - 1))
  }

  type Worklist = seq<(Json, nat)>

  function Burden(pending: Worklist): (n: nat) {
    if pending == [] then 0 else Burden(pending[..|pending| - 1]) + Nodes(pending[|pending| - 1].0)
  }

  /** The first `n` children, each one deeper. */
  function Children(v: Json, n: nat, depth: nat): (r: Worklist)
    requires n <= Arity(v)
    ensures |r| == n && forall i :: 0 <= i < n ==> r[i] == (Child(v, i), depth)
  {
    if n == 0 then [] else Children(v, n - 1, depth) + [(Child(v, n - 1), depth)]
  }

  lemma BurdenAppend(pending: Worklist, entry: (Json, nat))
    ensures Burden(pending + [entry]) == Burden(pending) + Nodes(entry.0)
  {
    assert (pending + [entry])[..|pending|] == pending;
  }

  lemma {:induction false} BurdenOfChildren(pending: Worklist, v: Json, n: nat, depth: nat)
    requires n <= Arity(v)
    ensures Burden(pending + Children(v, n, depth)) == Burden(pending) + NodesBelow(v, n)
  {
    if n == 0 {
      assert pending + Children(v, 0, depth) == pending;
    } else {
      BurdenOfChildren(pending, v, n - 1, depth);
      var most, last := pending + Children(v, n - 1, depth), (Child(v, n - 1), depth);
      assert pending + Children(v, n, depth) == most + [last];
      BurdenAppend(most, last);
    }
  }

  ghost predicate Within(entry: (Json, nat)) {
    entry.1 - 1 + Nesting(entry.0) <= MAX_DEPTH
  }

  ghost predicate AllWithin(pending: Worklist) {
    forall i :: 0 <= i < |pending| ==> Within(pending[i])
  }

  /** Replacing a container on the list by its children asks the same question. */
  lemma ExpandKeepsAnswer(rest: Worklist, v: Json, depth: nat)
    requires IsContainer(v) && depth <= MAX_DEPTH
    ensures AllWithin(rest + [(v, depth)]) <==> AllWithin(rest + Children(v, Arity(v), depth + 1))
  {
    var before, after := rest + [(v, depth)], rest + Children(v, Arity(v), depth + 1);
    DeepestIsBound(v, Arity(v), MAX_DEPTH - depth);
    assert forall i :: 0 <= i < |rest| ==> before[i] == rest[i] == after[i];
    assert forall i :: 0 <= i < Arity(v) ==> after[|rest| + i] == (Child(v, i), depth + 1);
    if AllWithin(before) {
      assert Within(before[|rest|]);
      forall i | |rest| <= i < |after| ensures Within(after[i]) {
        assert Nesting(Child(v, i - |rest|)) <= MAX_DEPTH - depth;
      }
    }
    if AllWithin(after) {
      forall i | 0 <= i < Arity(v) ensures Nesting(Child(v, i)) <= MAX_DEPTH - depth {
        assert Within(after[|rest| + i]);
      }
    }
  }

  /** The worklist check is the recursive nesting bound. */
  method DepthWithin(v: Json) returns (ok: bool)
    ensures ok <==> Nesting(v) <= MAX_DEPTH
  {
    var pending: Worklist := [(v, 1)];
    while pending != []
      invariant AllWithin(pending) <==> Nesting(v) <= MAX_DEPTH
      invariant forall i :: 0 <= i < |pending| ==> pending[i].1 <= MAX_DEPTH + 1
      decreases Burden(pending)
    {
      var item, depth := pending[|pending| - 1].0, pending[|pending| - 1].1;
      ghost var all := pending;
      pending := pending[..|pending| - 1];
      assert all == pending + [(item, depth)];
      if IsContainer(item) {
        if depth > MAX_DEPTH {
          assert !Within(all[|pending|]);
          return false;
        }
        ExpandKeepsAnswer(pending, item, depth);
        BurdenOfChildren(pending, item, Arity(item), depth + 1);
        pending := pending + Children(item, Arity(item), depth + 1);
      }
    }
    ok := true;
  }
}
