/** Selecting from Cargo's resolve graph everything the workspace members reach, and nothing else. */
module NoticeClosure {
  import opened Unicode

  type Id = string

  /** The `source` field of a package: absent, null (a local package), or something else. */
  datatype Source = Missing | Local | Remote

  datatype Package = Package(id: Id, source: Source)

  /** A resolve node: its dependency list and the packages its named edges mention. */
  datatype Node = Node(id: Id, dependencies: seq<Id>, named: seq<Id>)

  datatype Metadata = Metadata(packages: seq<Package>, roots: seq<Id>, nodes: seq<Node>, root: Option<Id>)

  predicate Identifier(id: Id) {
    id != "" && forall i :: 0 <= i < |id| ==> id[i] as int >= 32 && id[i] as int != 127
  }

  predicate Distinct(ids: seq<Id>) {
    forall i, j :: 0 <= i < j < |ids| ==> ids[i] != ids[j]
  }

  predicate UniqueIds(ids: seq<Id>) {
    (forall i :: 0 <= i < |ids| ==> Identifier(ids[i])) && Distinct(ids)
  }

  /** The identities of a list of definitions. */
  function Ids<T>(values: seq<T>, id: T -> Id): (r: seq<Id>)
    ensures |r| == |values| && forall i :: 0 <= i < |values| ==> r[i] == id(values[i])
  {
    seq(|values|, i requires 0 <= i < |values| => id(values[i]))
  }

  function PackageId(p: Package): (id: Id) { p.id }

  function NodeId(n: Node): (id: Id) { n.id }

  function PackageIds(ps: seq<Package>): (r: seq<Id>) {
    Ids(ps, PackageId)
  }

  function NodeIds(ns: seq<Node>): (r: seq<Id>) {
    Ids(ns, NodeId)
  }

  predicate ValidNode(m: Metadata, n: Node) {
    && n.id in PackageIds(m.packages)
    && UniqueIds(n.dependencies)
    && (forall i :: 0 <= i < |n.named| ==> Identifier(n.named[i]))
    && (set d | d in n.named) == (set d | d in n.dependencies)
    && (forall d :: d in n.dependencies ==> d in PackageIds(m.packages) && d in NodeIds(m.nodes))
  }

  /** Every workspace root is defined twice over and is a local package. */
  ghost predicate RootsAreDefined(m: Metadata) {
    && (forall r :: r in m.roots ==> r in PackageIds(m.packages) && r in NodeIds(m.nodes))
    && (forall p :: p in m.packages && p.id in m.roots ==> p.source == Local)
  }

  /** What the selection demands of its input. */
  ghost predicate Valid(m: Metadata) {
    && UniqueIds(PackageIds(m.packages))
    && UniqueIds(m.roots) && m.roots != []
    && UniqueIds(NodeIds(m.nodes))
    && RootsAreDefined(m)
    && (forall n :: n in m.nodes ==> ValidNode(m, n))
    && (m.root.Some? ==> m.root.value in m.roots)
  }

  // Checking the input

  /** `index` holds exactly these definitions, each under its identity. */
  ghost predicate IndexOf<T>(values: seq<T>, id: T -> Id, index: map<Id, T>) {
    && (forall x :: x in values ==> id(x) in index && index[id(x)] == x)
    && (forall k :: k in index ==> index[k] in values && id(index[k]) == k)
  }

  lemma KeysAreIds<T>(values: seq<T>, id: T -> Id, index: map<Id, T>, k: Id)
    requires IndexOf(values, id, index)
    ensures k in index <==> k in Ids(values, id)
  {
    if k in index {
      var j :| 0 <= j < |values| && values[j] == index[k];
      assert Ids(values, id)[j] == k;
    }
    if k in Ids(values, id) {
      var j :| 0 <= j < |values| && Ids(values, id)[j] == k;
      assert values[j] in values;
    }
  }

  lemma IndexExtends<T>(values: seq<T>, id: T -> Id, x: T, index: map<Id, T>)
    requires IndexOf(values, id, index) && UniqueIds(Ids(values, id)) && Identifier(id(x))
    ensures id(x) !in index ==> IndexOf(values + [x], id, index[id(x) := x]) && UniqueIds(Ids(values + [x], id))
    ensures id(x) in index ==> !UniqueIds(Ids(values + [x], id))
  {
    var ids := Ids(values + [x], id);
    assert ids == Ids(values, id) + [id(x)];
    KeysAreIds(values, id, index, id(x));
    if id(x) in index {
      var j :| 0 <= j < |values| && Ids(values, id)[j] == id(x);
      assert ids[j] == ids[|values|];
    }
  }

  lemma PrefixStaysUnique(ids: seq<Id>, i: nat)
    requires i <= |ids| && UniqueIds(ids)
    ensures UniqueIds(ids[..i])
  {}

  /** The definitions by identity; refuses a repeated or malformed identity. */
  method Definitions<T>(values: seq<T>, id: T -> Id) returns (r: Option<map<Id, T>>)
    ensures r.Some? <==> UniqueIds(Ids(values, id))
    ensures r.Some? ==> IndexOf(values, id, r.value)
  {
    var index: map<Id, T> := map[];
    for i := 0 to |values|
      invariant IndexOf(values[..i], id, index) && UniqueIds(Ids(values[..i], id))
    {
      var key := id(values[i]);
      assert values[..i + 1] == values[..i] + [values[i]];
      assert Ids(values, id)[..i + 1] == Ids(values[..i + 1], id);
      if !Identifier(key) {
        assert Ids(values, id)[i] == key;
        return None;
      }
      IndexExtends(values[..i], id, values[i], index);
      if key in index {
        if UniqueIds(Ids(values, id)) {
          PrefixStaysUnique(Ids(values, id), i + 1);
        }
        return None;
      }
      index := index[key := values[i]];
    }
    assert values[..|values|] == values;
    r := Some(index);
  }

  /** A list is as long as its set of members if and only if nothing in it is repeated. */
  lemma {:induction false} SetIsAsLarge(ids: seq<Id>, members: set<Id>)
    requires forall x :: x in members <==> x in ids
    ensures |members| <= |ids|
    ensures |members| == |ids| <==> Distinct(ids)
  {
    if ids == [] {
      assert members == {};
    } else {
      var front, last := ids[..|ids| - 1], ids[|ids| - 1];
      assert ids == front + [last];
      if last in front {
        SetIsAsLarge(front, members);
        var j :| 0 <= j < |front| && front[j] == last;
        assert ids[j] == ids[|ids| - 1];
      } else {
        SetIsAsLarge(front, members - {last});
        assert members == members - {last} + {last};
        assert Distinct(ids) <==> Distinct(front);
      }
    }
  }

  /** The identities are well formed and the list is as long as its set. */
  method CheckUniqueIds(ids: seq<Id>) returns (ok: bool, members: set<Id>)
    ensures ok <==> UniqueIds(ids)
    ensures ok ==> forall x :: x in members <==> x in ids
  {
    members := {};
    for i := 0 to |ids|
      invariant forall j :: 0 <= j < i ==> Identifier(ids[j])
      invariant forall x :: x in members <==> x in ids[..i]
    {
      if !Identifier(ids[i]) {
        return false, members;
      }
      members := members + {ids[i]};
    }
    assert ids[..|ids|] == ids;
    SetIsAsLarge(ids, members);
    ok := |members| == |ids|;
  }

  predicate RootIsDefined(packages: map<Id, Package>, nodes: map<Id, Node>, root: Id) {
    root in packages && root in nodes && packages[root].source == Local
  }

  lemma RootsAreIndexed(m: Metadata, packages: map<Id, Package>, nodes: map<Id, Node>)
    requires IndexOf(m.packages, PackageId, packages) && IndexOf(m.nodes, NodeId, nodes)
    ensures RootsAreDefined(m) <==> forall j :: 0 <= j < |m.roots| ==> RootIsDefined(packages, nodes, m.roots[j])
  {
    forall r ensures (r in packages <==> r in PackageIds(m.packages)) && (r in nodes <==> r in NodeIds(m.nodes)) {
      KeysAreIds(m.packages, PackageId, packages, r);
      KeysAreIds(m.nodes, NodeId, nodes, r);
    }
    if RootsAreDefined(m) {
      forall j | 0 <= j < |m.roots| ensures RootIsDefined(packages, nodes, m.roots[j]) {
        var p := packages[m.roots[j]];
        assert p in m.packages && PackageId(p) == m.roots[j];
      }
    }
    if forall j :: 0 <= j < |m.roots| ==> RootIsDefined(packages, nodes, m.roots[j]) {
      forall p | p in m.packages && p.id in m.roots ensures p.source == Local {
        var j :| 0 <= j < |m.roots| && m.roots[j] == p.id;
        assert RootIsDefined(packages, nodes, m.roots[j]) && PackageId(p) == p.id;
      }
    }
  }

  method CheckRoots(m: Metadata, packages: map<Id, Package>, nodes: map<Id, Node>) returns (ok: bool)
    requires IndexOf(m.packages, PackageId, packages) && IndexOf(m.nodes, NodeId, nodes)
    ensures ok <==> RootsAreDefined(m)
  {
    for i := 0 to |m.roots|
      invariant forall j :: 0 <= j < i ==> RootIsDefined(packages, nodes, m.roots[j])
    {
      if m.roots[i] !in packages || m.roots[i] !in nodes || packages[m.roots[i]].source != Local {
        RootsAreIndexed(m, packages, nodes);
        return false;
      }
    }
    RootsAreIndexed(m, packages, nodes);
    ok := true;
  }

  /** One node: its package is defined, its dependencies are unique and defined, and both forms of its edges agree. */
  method CheckNode(m: Metadata, packages: map<Id, Package>, nodes: map<Id, Node>, n: Node) returns (ok: bool)
    requires IndexOf(m.packages, PackageId, packages) && IndexOf(m.nodes, NodeId, nodes)
    ensures ok <==> ValidNode(m, n)
  {
    forall x ensures (x in packages <==> x in PackageIds(m.packages)) && (x in nodes <==> x in NodeIds(m.nodes)) {
      KeysAreIds(m.packages, PackageId, packages, x);
      KeysAreIds(m.nodes, NodeId, nodes, x);
    }
    if n.id !in packages {
      return false;
    }
    var unique, dependencies := CheckUniqueIds(n.dependencies);
    if !unique {
      return false;
    }
    var named: set<Id> := {};
    for i := 0 to |n.named|
      invariant forall j :: 0 <= j < i ==> Identifier(n.named[j])
      invariant forall x :: x in named <==> x in n.named[..i]
    {
      if !Identifier(n.named[i]) {
        return false;
      }
      named := named + {n.named[i]};
    }
    assert n.named[..|n.named|] == n.named;
    assert named == (set d | d in n.named) && dependencies == (set d | d in n.dependencies);
    ok := named == dependencies && forall d | d in n.dependencies :: d in packages && d in nodes;
  }

  /** All the checks before the selection, ending with the node definitions it works on. */
  method Validate(m: Metadata) returns (r: Option<map<Id, Node>>)
    ensures r.Some? <==> Valid(m)
    ensures r.Some? ==> IndexOf(m.nodes, NodeId, r.value)
  {
    var packages := Definitions(m.packages, PackageId);
    if packages.None? {
      return None;
    }
    var unique, roots := CheckUniqueIds(m.roots);
    if !unique || m.roots == [] {
      return None;
    }
    var nodes := Definitions(m.nodes, NodeId);
    if nodes.None? {
      return None;
    }
    var defined := CheckRoots(m, packages.value, nodes.value);
    if !defined {
      return None;
    }
    for i := 0 to |m.nodes|
      invariant forall j :: 0 <= j < i ==> ValidNode(m, m.nodes[j])
    {
      var ok := CheckNode(m, packages.value, nodes.value, m.nodes[i]);
      if !ok {
        return None;
      }
    }
    if m.root.Some? && m.root.value !in m.roots {
      return None;
    }
    r := nodes;
  }

  // Reachability, by paths

  ghost predicate Edge(m: Metadata, x: Id, y: Id) {
    exists n :: n in m.nodes && n.id == x && y in n.dependencies
  }

  ghost predicate Path(m: Metadata, p: seq<Id>) {
    p != [] && p[0] in m.roots && forall i :: 0 <= i < |p| - 1 ==> Edge(m, p[i], p[i + 1])
  }

  ghost predicate Reachable(m: Metadata, x: Id) {
    exists p :: Path(m, p) && p[|p| - 1] == x
  }

  lemma RootIsReachable(m: Metadata, x: Id)
    requires x in m.roots
    ensures Reachable(m, x)
  {
    assert Path(m, [x]);
  }

  lemma EdgeExtendsReach(m: Metadata, x: Id, y: Id)
    requires Reachable(m, x) && Edge(m, x, y)
    ensures Reachable(m, y)
  {
    var p :| Path(m, p) && p[|p| - 1] == x;
    var q := p + [y];
    forall i | 0 <= i < |q| - 1 ensures Edge(m, q[i], q[i + 1]) {
      if i < |p| - 1 {
        assert Edge(m, p[i], p[i + 1]);
      }
    }
    assert Path(m, q) && q[|q| - 1] == y;
  }

  /** A set with the roots that no edge leaves contains every path. */
  lemma {:induction false} ClosedSetHoldsPath(m: Metadata, closed: set<Id>, p: seq<Id>)
    requires (forall r :: r in m.roots ==> r in closed) && (forall x, y :: x in closed && Edge(m, x, y) ==> y in closed)
    requires Path(m, p)
    ensures p[|p| - 1] in closed
    decreases |p|
  {
    if |p| == 1 {
    } else {
      var front := p[..|p| - 1];
      forall i | 0 <= i < |front| - 1 ensures Edge(m, front[i], front[i + 1]) {
        assert Edge(m, p[i], p[i + 1]);
      }
      ClosedSetHoldsPath(m, closed, front);
      assert Edge(m, p[|p| - 2], p[|p| - 2 + 1]);
    }
  }

  // The selection

  ghost predicate Exact(m: Metadata, reached: set<Id>) {
    forall x :: x in reached <==> Reachable(m, x)
  }

  /** The definitions whose identity is reached, in their original order. */
  function Keep<T>(values: seq<T>, id: T -> Id, reached: set<Id>): (r: seq<T>) {
    if values == [] then [] else (if id(values[0]) in reached then [values[0]] else []) + Keep(values[1..], id, reached)
  }

  function Select(m: Metadata, reached: set<Id>): (r: Metadata) {
    m.(packages := Keep(m.packages, PackageId, reached), nodes := Keep(m.nodes, NodeId, reached))
  }

  /** Node identities are unique, so an edge from a node is one of its listed dependencies. */
  lemma SameNode(m: Metadata, x: Id, n: Node)
    requires UniqueIds(NodeIds(m.nodes)) && n in m.nodes && n.id == x
    ensures forall y :: Edge(m, x, y) <==> y in n.dependencies
  {
    forall y | Edge(m, x, y) ensures y in n.dependencies {
      var other :| other in m.nodes && other.id == x && y in other.dependencies;
      var i :| 0 <= i < |m.nodes| && m.nodes[i] == n;
      var j :| 0 <= j < |m.nodes| && m.nodes[j] == other;
      assert NodeIds(m.nodes)[i] == NodeIds(m.nodes)[j];
    }
  }

  /** What a reached node adds to the worklist is reachable and defined. */
  lemma StepStaysInside(m: Metadata, index: map<Id, Node>, key: Id)
    requires Valid(m) && IndexOf(m.nodes, NodeId, index) && key in index && Reachable(m, key)
    ensures forall d :: d in index[key].dependencies ==> Reachable(m, d) && d in index
    ensures forall y :: Edge(m, key, y) <==> y in index[key].dependencies
  {
    var n := index[key];
    SameNode(m, key, n);
    forall d | d in n.dependencies ensures Reachable(m, d) && d in index {
      EdgeExtendsReach(m, key, d);
      assert ValidNode(m, n);
      KeysAreIds(m.nodes, NodeId, index, d);
    }
  }

  /** What holds of the worklist between rounds. */
  ghost predicate Working(m: Metadata, index: map<Id, Node>, reached: set<Id>, pending: seq<Id>) {
    && (forall x :: x in reached ==> Reachable(m, x) && x in index)
    && (forall x :: x in pending ==> Reachable(m, x) && x in index)
    && (forall r :: r in m.roots ==> r in reached || r in pending)
    && (forall x, y :: x in reached && Edge(m, x, y) ==> y in reached || y in pending)
  }

  lemma DropKnown(m: Metadata, index: map<Id, Node>, reached: set<Id>, front: seq<Id>, key: Id)
    requires Working(m, index, reached, front + [key]) && key in reached
    ensures Working(m, index, reached, front)
  {
    assert forall x :: x in front + [key] <==> x in front || x == key;
  }

  lemma ReachNew(m: Metadata, index: map<Id, Node>, reached: set<Id>, front: seq<Id>, key: Id)
    requires Valid(m) && IndexOf(m.nodes, NodeId, index) && Working(m, index, reached, front + [key])
    ensures key in index && Working(m, index, reached + {key}, front + index[key].dependencies)
  {
    assert forall x :: x in front + [key] <==> x in front || x == key;
    assert key in front + [key];
    StepStaysInside(m, index, key);
    var more := index[key].dependencies;
    assert forall x :: x in front + more <==> x in front || x in more;
  }

  lemma StartWorking(m: Metadata, index: map<Id, Node>)
    requires Valid(m) && IndexOf(m.nodes, NodeId, index)
    ensures Working(m, index, {}, m.roots)
  {
    forall r | r in m.roots ensures Reachable(m, r) && r in index {
      RootIsReachable(m, r);
      KeysAreIds(m.nodes, NodeId, index, r);
    }
  }

  lemma DoneIsExact(m: Metadata, index: map<Id, Node>, reached: set<Id>)
    requires Working(m, index, reached, [])
    ensures Exact(m, reached)
  {
    forall x | Reachable(m, x) ensures x in reached {
      var p :| Path(m, p) && p[|p| - 1] == x;
      ClosedSetHoldsPath(m, reached, p);
    }
  }

  /** The worklist. It ends because each round either reaches a new node or shortens the list, and it reaches exactly
      what the workspace members reach, cycles included. */
  method Reach(m: Metadata, index: map<Id, Node>) returns (reached: set<Id>)
    requires Valid(m) && IndexOf(m.nodes, NodeId, index)
    ensures Exact(m, reached)
  {
    reached := {};
    var pending := m.roots;
    StartWorking(m, index);
    while pending != []
      invariant Working(m, index, reached, pending)
      decreases index.Keys - reached, |pending|
    {
      var front, key := pending[..|pending| - 1], pending[|pending| - 1];
      assert pending == front + [key];
      pending := front;
      if key in reached {
        DropKnown(m, index, reached, front, key);
      } else {
        ReachNew(m, index, reached, front, key);
        reached := reached + {key};
        pending := pending + index[key].dependencies;
      }
    }
    DoneIsExact(m, index, reached);
  }

  ghost function ReachableIds(m: Metadata): (r: set<Id>)
    ensures forall x :: x in r ==> Reachable(m, x)
  {
    set x | x in NodeIds(m.nodes) && Reachable(m, x)
  }

  /** On valid input every reachable identity is defined. */
  lemma {:induction false} ReachableIsDefined(m: Metadata, p: seq<Id>)
    requires Valid(m) && Path(m, p)
    ensures p[|p| - 1] in NodeIds(m.nodes)
  {
    if |p| > 1 {
      assert Edge(m, p[|p| - 2], p[|p| - 2 + 1]);
      var n :| n in m.nodes && n.id == p[|p| - 2] && p[|p| - 1] in n.dependencies;
      assert ValidNode(m, n);
    }
  }

  lemma ReachableIdsAreExact(m: Metadata)
    requires Valid(m)
    ensures Exact(m, ReachableIds(m))
  {
    forall x | Reachable(m, x) ensures x in ReachableIds(m) {
      var p :| Path(m, p) && p[|p| - 1] == x;
      ReachableIsDefined(m, p);
    }
  }

  /** Checks the input and selects. Everything kept is reachable, everything reachable is kept, in the given order. */
  method SelectClosure(m: Metadata) returns (r: Option<Metadata>)
    ensures r.Some? <==> Valid(m)
    ensures r.Some? ==> r.value == Select(m, ReachableIds(m))
  {
    var index := Validate(m);
    if index.None? {
      return None;
    }
    var reached := Reach(m, index.value);
    ReachableIdsAreExact(m);
    assert reached == ReachableIds(m);
    r := Some(Select(m, reached));
  }

  // Properties of the result

  lemma {:induction false} Kept<T>(values: seq<T>, id: T -> Id, reached: set<Id>, x: T)
    ensures x in Keep(values, id, reached) <==> x in values && id(x) in reached
  {
    if values == [] {
    } else {
      Kept(values[1..], id, reached, x);
      assert values == [values[0]] + values[1..];
    }
  }

  lemma {:induction false} KeptIds<T>(values: seq<T>, id: T -> Id, reached: set<Id>, k: Id)
    ensures k in Ids(Keep(values, id, reached), id) <==> k in Ids(values, id) && k in reached
  {
    if values == [] {
    } else {
      var kept := Keep(values[1..], id, reached);
      KeptIds(values[1..], id, reached, k);
      assert Ids(values, id) == [id(values[0])] + Ids(values[1..], id);
      assert Ids([values[0]] + kept, id) == [id(values[0])] + Ids(kept, id);
      assert [] + kept == kept;
    }
  }

  lemma ConsIsUnique(x: Id, rest: seq<Id>)
    requires Identifier(x) && UniqueIds(rest) && x !in rest
    ensures UniqueIds([x] + rest)
  {
    var ids := [x] + rest;
    assert forall i :: 0 < i < |ids| ==> ids[i] == rest[i - 1];
  }

  lemma {:induction false} KeptIdsAreUnique<T>(values: seq<T>, id: T -> Id, reached: set<Id>)
    requires UniqueIds(Ids(values, id))
    ensures UniqueIds(Ids(Keep(values, id, reached), id))
  {
    if values == [] {
    } else {
      var first, rest := id(values[0]), values[1..];
      var kept := Keep(rest, id, reached);
      assert Ids(values, id) == [first] + Ids(rest, id);
      assert Ids(rest, id) == Ids(values, id)[1..];
      KeptIdsAreUnique(rest, id, reached);
      KeptIds(rest, id, reached, first);
      ConsIsUnique(first, Ids(kept, id));
      assert Ids([values[0]] + kept, id) == [first] + Ids(kept, id);
      assert [] + kept == kept;
    }
  }

  lemma {:induction false} KeepAll<T>(values: seq<T>, id: T -> Id, reached: set<Id>)
    requires forall x :: x in values ==> id(x) in reached
    ensures Keep(values, id, reached) == values
  {
    if values == [] {
    } else {
      KeepAll(values[1..], id, reached);
    }
  }

  /** The identities left after selecting are the selected ones, still without repetition. */
  lemma KeptAreUnique(m: Metadata, reached: set<Id>)
    requires Valid(m)
    ensures var r := Select(m, reached);
            && UniqueIds(PackageIds(r.packages)) && UniqueIds(NodeIds(r.nodes))
            && (forall x :: x in PackageIds(r.packages) <==> x in PackageIds(m.packages) && x in reached)
            && (forall x :: x in NodeIds(r.nodes) <==> x in NodeIds(m.nodes) && x in reached)
  {
    var r := Select(m, reached);
    KeptIdsAreUnique(m.packages, PackageId, reached);
    KeptIdsAreUnique(m.nodes, NodeId, reached);
    forall x ensures x in PackageIds(r.packages) <==> x in PackageIds(m.packages) && x in reached {
      KeptIds(m.packages, PackageId, reached, x);
    }
    forall x ensures x in NodeIds(r.nodes) <==> x in NodeIds(m.nodes) && x in reached {
      KeptIds(m.nodes, NodeId, reached, x);
    }
  }

  /** The selection passes its own validation. */
  lemma SelectionIsValid(m: Metadata)
    requires Valid(m)
    ensures Valid(Select(m, ReachableIds(m)))
  {
    var reached := ReachableIds(m);
    var r := Select(m, reached);
    ReachableIdsAreExact(m);
    KeptAreUnique(m, reached);
    forall x | x in m.roots ensures x in PackageIds(r.packages) && x in NodeIds(r.nodes) {
      RootIsReachable(m, x);
    }
    forall p | p in r.packages && p.id in r.roots ensures p.source == Local {
      Kept(m.packages, PackageId, reached, p);
    }
    forall n | n in r.nodes ensures ValidNode(r, n) {
      Kept(m.nodes, NodeId, reached, n);
      assert ValidNode(m, n);
      forall d | d in n.dependencies ensures d in PackageIds(r.packages) && d in NodeIds(r.nodes) {
        assert Edge(m, n.id, d);
        EdgeExtendsReach(m, n.id, d);
      }
    }
  }

  lemma PrefixIsPath(m: Metadata, p: seq<Id>, i: nat)
    requires Path(m, p) && i < |p|
    ensures Path(m, p[..i + 1]) && p[..i + 1][|p[..i + 1]| - 1] == p[i]
  {
    var q := p[..i + 1];
    forall j | 0 <= j < |q| - 1 ensures Edge(m, q[j], q[j + 1]) {
      assert Edge(m, p[j], p[j + 1]);
    }
  }

  lemma {:induction false} SelectionKeepsPaths(m: Metadata, p: seq<Id>)
    requires Valid(m) && Path(m, p)
    ensures Path(Select(m, ReachableIds(m)), p)
    decreases |p|
  {
    var r := Select(m, ReachableIds(m));
    ReachableIdsAreExact(m);
    forall i | 0 <= i < |p| - 1 ensures Edge(r, p[i], p[i + 1]) {
      assert Edge(m, p[i], p[i + 1]);
      var n :| n in m.nodes && n.id == p[i] && p[i + 1] in n.dependencies;
      PrefixIsPath(m, p, i);
      assert Reachable(m, p[i]);
      Kept(m.nodes, NodeId, ReachableIds(m), n);
    }
  }

  /** Nothing becomes reachable or unreachable by selecting. */
  lemma SelectionKeepsReach(m: Metadata, x: Id)
    requires Valid(m)
    ensures Reachable(Select(m, ReachableIds(m)), x) <==> Reachable(m, x)
  {
    var r := Select(m, ReachableIds(m));
    if Reachable(m, x) {
      var p :| Path(m, p) && p[|p| - 1] == x;
      SelectionKeepsPaths(m, p);
      assert Path(r, p) && p[|p| - 1] == x;
    }
    if Reachable(r, x) {
      var p :| Path(r, p) && p[|p| - 1] == x;
      forall i | 0 <= i < |p| - 1 ensures Edge(m, p[i], p[i + 1]) {
        assert Edge(r, p[i], p[i + 1]);
        var n :| n in r.nodes && n.id == p[i] && p[i + 1] in n.dependencies;
        Kept(m.nodes, NodeId, ReachableIds(m), n);
      }
      assert Path(m, p) && p[|p| - 1] == x;
    }
  }

  /** Selecting twice is selecting once. */
  lemma SelectionIsIdempotent(m: Metadata)
    requires Valid(m)
    ensures var r := Select(m, ReachableIds(m)); Valid(r) && Select(r, ReachableIds(r)) == r
  {
    var reached := ReachableIds(m);
    var r := Select(m, reached);
    SelectionIsValid(m);
    ReachableIdsAreExact(m);
    ReachableIdsAreExact(r);
    forall p | p in r.packages ensures p.id in ReachableIds(r) {
      Kept(m.packages, PackageId, reached, p);
      SelectionKeepsReach(m, p.id);
    }
    forall n | n in r.nodes ensures n.id in ReachableIds(r) {
      Kept(m.nodes, NodeId, reached, n);
      SelectionKeepsReach(m, n.id);
    }
    KeepAll(r.packages, PackageId, ReachableIds(r));
    KeepAll(r.nodes, NodeId, ReachableIds(r));
  }

  /** Exactness of the result: a package or node is kept if and only if the workspace reaches it. */
  lemma SelectionIsExact(m: Metadata, p: Package, n: Node)
    requires Valid(m)
    ensures p in Select(m, ReachableIds(m)).packages <==> p in m.packages && Reachable(m, p.id)
    ensures n in Select(m, ReachableIds(m)).nodes <==> n in m.nodes && Reachable(m, n.id)
  {
    ReachableIdsAreExact(m);
    Kept(m.packages, PackageId, ReachableIds(m), p);
    Kept(m.nodes, NodeId, ReachableIds(m), n);
  }
}
