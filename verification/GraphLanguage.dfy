/** The language of the automaton: exactly the compact spellings of the graphs that meet the contract. */
module GraphLanguage {
  import opened Unicode
  import opened QuestionScanner
  import opened JsonSpelling
  import opened GraphRules

  /** A task as written: some spelling of its question, and the tasks it depends on. */
  datatype Task = Task(spelling: seq<Glyph>, parents: seq<nat>)

  /** A task as meant. */
  datatype Node = Node(question: Text, parents: seq<nat>)

  function Meaning(ts: seq<Task>): (g: seq<Node>)
    ensures |g| == |ts|
  {
    seq(|ts|, i requires 0 <= i < |ts| => Node(DecodeAll(ts[i].spelling), ts[i].parents))
  }

  /** Dependencies point strictly backwards and never twice at the same task. */
  predicate ValidParents(n: int, ps: seq<nat>) {
    && (forall i :: 0 <= i < |ps| ==> ps[i] < n)
    && (forall i, j :: 0 <= i < j < |ps| ==> ps[i] != ps[j])
  }

  /** The version-3 graph contract on abstract graphs. */
  predicate Contract(goal: Text, requirement: bool, maxBytes: nat, g: seq<Node>) {
    && 1 <= |g| <= 4
    && (forall i :: 0 <= i < |g| ==> ValidQuestion(Context(maxBytes, Strip(goal), []), g[i].question))
    && (forall i, j :: 0 <= i < j < |g| ==> Strip(g[i].question) != Strip(g[j].question))
    && (forall i :: 0 <= i < |g| ==> ValidParents(i, g[i].parents))
    && (requirement ==> |g| >= 2 && exists i :: 0 <= i < |g| && g[i].parents != [])
  }

  // Printing

  function PrintParents(ps: seq<nat>): (t: Text)
    requires forall i :: 0 <= i < |ps| ==> ps[i] < 10
  {
    if ps == [] then []
    else [0x30 + ps[0]] + (if |ps| == 1 then [] else [COMMA] + PrintParents(ps[1..]))
  }

  predicate Printable(t: Task) {
    forall i :: 0 <= i < |t.parents| ==> t.parents[i] < 10
  }

  function PrintTask(t: Task): (w: Text)
    requires Printable(t)
  {
    PrintAll(t.spelling) + [QUOTE] + DEPENDS_ON + PrintParents(t.parents) + [CLOSE_BRACKET, CLOSE_BRACE]
  }

  predicate CanPrintAll(ts: seq<Task>) {
    forall i :: 0 <= i < |ts| ==> Printable(ts[i])
  }

  function PrintRest(ts: seq<Task>): (w: Text)
    requires CanPrintAll(ts)
  {
    if ts == [] then [CLOSE_BRACKET, CLOSE_BRACE]
    else [COMMA] + NEXT_TASK + PrintTask(ts[0]) + PrintRest(ts[1..])
  }

  function PrintGraph(ts: seq<Task>): (w: Text)
    requires ts != [] && CanPrintAll(ts)
  {
    OPENING + PrintTask(ts[0]) + PrintRest(ts[1..])
  }

  // Dependency lists

  predicate InParents(s: Rules) {
    && s.phase in {Parents, ParentRequired, ParentAfter}
    && 1 <= |s.questions| <= 4
    && ValidParents(|s.questions| - 1, s.parents)
  }

  /** The state after naming the parents `ps`. */
  function Named(s: Rules, ps: seq<nat>): (t: Rules) {
    if ps == [] then s else s.(parents := s.parents + ps, hasDependency := true, phase := ParentAfter)
  }

  lemma NextParentAvailable(n: int, a: seq<nat>, b: seq<nat>)
    requires b != [] && ValidParents(n, a + b)
    ensures b[0] < n && b[0] !in a
  {
    assert (a + b)[|a|] == b[0];
    forall i | 0 <= i < |a| ensures a[i] != b[0] {
      assert (a + b)[i] == a[i];
    }
  }

  lemma StepNamesParent(s: Rules, p: nat)
    requires Ready(s) && InParents(s) && !s.phase.ParentAfter? && p < |s.questions| - 1 && p !in s.parents
    ensures Run(s, [0x30 + p]) == Some(Named(s, [p]))
  {
    assert Available(s, p);
    RunOne(s, 0x30 + p);
  }

  lemma StepComma(s: Rules, p: nat)
    requires Ready(s) && s.phase.ParentAfter? && p < |s.questions| - 1 && p !in s.parents
    ensures Run(s, [COMMA]) == Some(s.(phase := ParentRequired))
  {
    assert Available(s, p);
    RunOne(s, COMMA);
  }

  lemma SmallParents(n: int, a: seq<nat>, b: seq<nat>)
    requires n <= 3 && ValidParents(n, a + b)
    ensures forall i :: 0 <= i < |b| ==> b[i] < 10
  {
    forall i | 0 <= i < |b| ensures b[i] < n {
      assert (a + b)[|a| + i] == b[i];
    }
  }

  /** Naming one parent, then a comma because `q` is still free, then whatever comes. */
  lemma NameThenMore(s: Rules, p: nat, q: nat, tail: Text)
    requires Ready(s) && InParents(s) && !s.phase.ParentAfter? && Available(s, p) && Available(Named(s, [p]), q)
    ensures Run(s, [0x30 + p] + ([COMMA] + tail)) == Run(Named(s, [p]).(phase := ParentRequired), tail)
  {
    var one := Named(s, [p]);
    StepNamesParent(s, p);
    StepComma(one, q);
    RunViaTwo(s, [0x30 + p], one, [COMMA], one.(phase := ParentRequired), tail);
  }

  lemma NamedMore(s: Rules, p: nat, rest: seq<nat>)
    requires rest != []
    ensures Named(Named(s, [p]).(phase := ParentRequired), rest) == Named(s, [p] + rest)
    ensures Named(Named(s, [p]), rest) == Named(s, [p] + rest)
  {
    assert s.parents + [p] + rest == s.parents + ([p] + rest);
  }

  lemma ValidParentsPrefix(n: int, a: seq<nat>, b: seq<nat>)
    requires ValidParents(n, a + b)
    ensures ValidParents(n, a)
  {
    forall i | 0 <= i < |a| ensures a[i] < n { assert (a + b)[i] == a[i]; }
    forall i, j | 0 <= i < j < |a| ensures a[i] != a[j] {
      assert (a + b)[i] == a[i] && (a + b)[j] == a[j];
    }
  }

  /** The first two entries of a valid list, seen from the automaton. */
  lemma TwoParents(n: int, a: seq<nat>, p: nat, rest: seq<nat>)
    requires rest != [] && ValidParents(n, a + ([p] + rest))
    ensures p < n && p !in a && rest[0] < n && rest[0] !in a + [p]
    ensures ValidParents(n, a + [p]) && ValidParents(n, a + [p] + rest)
  {
    assert a + ([p] + rest) == a + [p] + rest;
    NextParentAvailable(n, a, [p] + rest);
    NextParentAvailable(n, a + [p], rest);
    ValidParentsPrefix(n, a + [p], rest);
  }

  /** One more entry in front of a list that is read. */
  lemma OneMoreForward(s: Rules, p: nat, rest: seq<nat>)
    requires Ready(s) && InParents(s) && !s.phase.ParentAfter? && rest != [] && p < 10
    requires forall i :: 0 <= i < |rest| ==> rest[i] < 10
    requires Available(s, p) && Available(Named(s, [p]), rest[0]) && Ready(Named(s, [p]).(phase := ParentRequired))
    requires var next := Named(s, [p]).(phase := ParentRequired);
             Run(next, PrintParents(rest)) == Some(Named(next, rest))
    ensures forall i :: 0 <= i < |[p] + rest| ==> ([p] + rest)[i] < 10
    ensures Run(s, PrintParents([p] + rest)) == Some(Named(s, [p] + rest))
  {
    NameThenMore(s, p, rest[0], PrintParents(rest));
    NamedMore(s, p, rest);
    assert ([p] + rest)[1..] == rest;
  }

  lemma LastForward(s: Rules, p: nat)
    requires Ready(s) && InParents(s) && !s.phase.ParentAfter? && p < |s.questions| - 1 && p !in s.parents
    ensures Run(s, PrintParents([p])) == Some(Named(s, [p]))
  {
    StepNamesParent(s, p);
  }

  lemma {:induction false} ParentsForward(s: Rules, ps: seq<nat>)
    requires Ready(s) && InParents(s) && !s.phase.ParentAfter?
    requires ValidParents(|s.questions| - 1, s.parents + ps)
    ensures forall i :: 0 <= i < |ps| ==> ps[i] < 10
    ensures Run(s, PrintParents(ps)) == Some(Named(s, ps))
    decreases |ps|
  {
    SmallParents(|s.questions| - 1, s.parents, ps);
    if ps == [] {
    } else if |ps| == 1 {
      NextParentAvailable(|s.questions| - 1, s.parents, ps);
      LastForward(s, ps[0]);
      assert ps == [ps[0]];
    } else {
      var p, rest := ps[0], ps[1..];
      assert ps == [p] + rest;
      TwoParents(|s.questions| - 1, s.parents, p, rest);
      ParentsForward(Named(s, [p]).(phase := ParentRequired), rest);
      OneMoreForward(s, p, rest);
    }
  }

  /** What the automaton still expects of a dependency list: a comma first if one entry is already there. */
  function ListTail(s: Rules, ps: seq<nat>): (t: Text)
    requires forall i :: 0 <= i < |ps| ==> ps[i] < 10
  {
    (if s.phase.ParentAfter? && ps != [] then [COMMA] else []) + PrintParents(ps)
  }

  predicate MayClose(s: Rules) {
    !(s.requirement && |s.questions| == 4 && !s.hasDependency)
  }

  predicate ListShape(s: Rules, ps: seq<nat>) {
    && ValidParents(|s.questions| - 1, s.parents + ps)
    && (forall i :: 0 <= i < |ps| ==> ps[i] < 10)
    && (s.phase.ParentRequired? ==> ps != [])
  }

  /** The list may close in state `s`, and `rest` is accepted after its bracket. */
  ghost predicate ListEnd(s: Rules, rest: Text) {
    && MayClose(s)
    && Ready(s.Expect([CLOSE_BRACE], TasksAfter))
    && Accepts(s.Expect([CLOSE_BRACE], TasksAfter), rest)
  }

  /** From `s`, the text `w` is the rest of a valid dependency list naming `ps`, its bracket, and an accepted `rest`. */
  ghost predicate ListRead(s: Rules, w: Text, ps: seq<nat>, rest: Text) {
    ListShape(s, ps) && w == ListTail(s, ps) + [CLOSE_BRACKET] + rest && ListEnd(Named(s, ps), rest)
  }

  lemma ListShapeName(s: Rules, p: nat, more: seq<nat>)
    requires !s.phase.ParentAfter? && p < |s.questions| - 1 <= 3
    requires ListShape(Named(s, [p]), more)
    ensures ListShape(s, [p] + more)
    ensures ListTail(s, [p] + more) == [0x30 + p] + ListTail(Named(s, [p]), more)
  {
    assert s.parents + ([p] + more) == Named(s, [p]).parents + more;
    assert ([p] + more)[1..] == more;
  }

  lemma ListReadName(s: Rules, p: nat, w: Text, more: seq<nat>, rest: Text)
    requires InParents(s) && !s.phase.ParentAfter? && p < |s.questions| - 1 && p !in s.parents
    requires ListRead(Named(s, [p]), w, more, rest)
    ensures ListRead(s, [0x30 + p] + w, [p] + more, rest)
  {
    var next, ps := Named(s, [p]), [p] + more;
    ListShapeName(s, p, more);
    if more == [] {
      assert ps == [p];
    } else {
      NamedMore(s, p, more);
    }
    assert [0x30 + p] + w == [0x30 + p] + ListTail(next, more) + [CLOSE_BRACKET] + rest;
  }

  lemma ListReadComma(s: Rules, w: Text, ps: seq<nat>, rest: Text)
    requires s.phase.ParentAfter? && s.hasDependency
    requires ListRead(s.(phase := ParentRequired), w, ps, rest)
    ensures ListRead(s, [COMMA] + w, ps, rest)
  {
    var next := s.(phase := ParentRequired);
    assert Named(s, ps) == Named(next, ps);
    assert ListTail(s, ps) == [COMMA] + ListTail(next, ps);
  }

  /** The three ways an accepting run can go on inside a dependency list. */
  lemma ParentStep(s: Rules, w: Text) returns (next: Rules)
    requires Ready(s) && InParents(s) && Accepts(s, w)
    ensures w != [] && Ready(next) && Accepts(next, w[1..])
    ensures || (!s.phase.ParentAfter? && NamesParent(s, w[0]) && next == Named(s, [w[0] - 0x30]))
            || (s.phase.ParentAfter? && w[0] == COMMA && next == s.(phase := ParentRequired))
            || (!s.phase.ParentRequired? && w[0] == CLOSE_BRACKET && MayClose(s)
                && next == s.Expect([CLOSE_BRACE], TasksAfter))
  {
    next := Advance(s, w[0]).value;
    assert Advance(s, w[0]) == ParentCharacter(s, w[0]);
  }

  lemma ListReadClose(s: Rules, rest: Text)
    requires InParents(s) && !s.phase.ParentRequired? && MayClose(s)
    requires var closing := s.Expect([CLOSE_BRACE], TasksAfter); Ready(closing) && Accepts(closing, rest)
    ensures ListRead(s, [CLOSE_BRACKET] + rest, [], rest)
  {
    assert s.parents + [] == s.parents;
    assert ListTail(s, []) == [];
  }

  lemma NamedInParents(s: Rules, p: nat)
    requires InParents(s) && p < |s.questions| - 1 && p !in s.parents
    ensures InParents(Named(s, [p]))
  {}

  /** An accepting run inside a dependency list reads a valid list and closes it. */
  lemma {:induction false} ParentsBackward(s: Rules, w: Text) returns (ps: seq<nat>, rest: Text)
    requires Ready(s) && InParents(s) && Accepts(s, w) && (s.phase.ParentAfter? ==> s.hasDependency)
    ensures ListRead(s, w, ps, rest)
    decreases |w|
  {
    var next := ParentStep(s, w);
    assert w == [w[0]] + w[1..];
    if next.phase.ParentAfter? {
      var p: nat := w[0] - 0x30;
      NamedInParents(s, p);
      var more;
      more, rest := ParentsBackward(next, w[1..]);
      ListReadName(s, p, w[1..], more, rest);
      ps := [p] + more;
    } else if next.phase.ParentRequired? {
      ps, rest := ParentsBackward(next, w[1..]);
      ListReadComma(s, w[1..], ps, rest);
    } else {
      ps, rest := [], w[1..];
      ListReadClose(s, rest);
    }
  }

  // One task

  predicate TaskStart(s: Rules) {
    s.phase.Question? && s.scan == EMPTY && |s.questions| < 4 && s.literal == []
  }

  function Value(t: Task): (v: Text) {
    Strip(DecodeAll(t.spelling))
  }

  predicate ValidTask(s: Rules, t: Task) {
    && ValidQuestion(s.Context(), DecodeAll(t.spelling))
    && ValidParents(|s.questions|, t.parents)
    && (s.requirement && |s.questions| == 3 && !s.hasDependency ==> t.parents != [])
  }

  function FinalScan(t: Task): (q: Scan) {
    Scan(DecodeAll(t.spelling), Bytes(DecodeAll(t.spelling)), NoEscape, None)
  }

  /** The state after the closing brace of a task: its stripped question and its dependencies are recorded. */
  function AfterTask(s: Rules, t: Task): (r: Rules) {
    s.(questions := s.questions + [Value(t)], parents := t.parents, hasDependency := s.hasDependency || t.parents != [],
       scan := FinalScan(t), phase := TasksAfter, literal := [], after := TasksAfter)
  }

  /** The state just after the opening bracket of the task's dependency list. */
  function Listing(s: Rules, t: Task): (r: Rules) {
    s.(questions := s.questions + [Value(t)], parents := [], scan := FinalScan(t), phase := Parents, literal := [],
       after := Parents)
  }

  lemma QuestionForward(s: Rules, t: Task)
    requires Ready(s) && TaskStart(s) && ValidQuestion(s.Context(), DecodeAll(t.spelling))
    ensures Run(s, PrintAll(t.spelling) + [QUOTE] + DEPENDS_ON) == Some(Listing(s, t))
  {
    QuestionIsRead(s.Context(), t.spelling);
    RunScan(s, PrintAll(t.spelling));
    var read := s.(scan := FinalScan(t));
    var closed := read.(questions := s.questions + [Value(t)], parents := []).Expect(DEPENDS_ON, Parents);
    RunOne(read, QUOTE);
    assert Advance(read, QUOTE) == Some(closed);
    RunLiteral(closed);
    RunConcat(s, PrintAll(t.spelling), [QUOTE]);
    RunConcat(s, PrintAll(t.spelling) + [QUOTE], DEPENDS_ON);
  }

  lemma ListClose(s: Rules)
    requires Ready(s) && (s.phase.Parents? || s.phase.ParentAfter?) && MayClose(s)
    ensures Run(s, [CLOSE_BRACKET, CLOSE_BRACE]) == Some(s.(phase := TasksAfter, literal := [], after := TasksAfter))
  {
    RunThenLiteral(s, CLOSE_BRACKET, s.Expect([CLOSE_BRACE], TasksAfter));
    assert [CLOSE_BRACKET, CLOSE_BRACE] == [CLOSE_BRACKET] + [CLOSE_BRACE];
  }

  lemma ListForward(s: Rules, t: Task)
    requires Ready(s) && TaskStart(s) && ValidTask(s, t)
    ensures Printable(t)
    ensures Run(Listing(s, t), PrintParents(t.parents) + [CLOSE_BRACKET, CLOSE_BRACE]) == Some(AfterTask(s, t))
  {
    var listing := Listing(s, t);
    assert [] + t.parents == t.parents;
    ParentsForward(listing, t.parents);
    var named := Named(listing, t.parents);
    ListClose(named);
    RunConcat(listing, PrintParents(t.parents), [CLOSE_BRACKET, CLOSE_BRACE]);
  }

  lemma TaskForward(s: Rules, t: Task)
    requires Ready(s) && TaskStart(s) && ValidTask(s, t)
    ensures Printable(t) && Run(s, PrintTask(t)) == Some(AfterTask(s, t))
  {
    QuestionForward(s, t);
    ListForward(s, t);
    RunConcat(s, PrintAll(t.spelling) + [QUOTE] + DEPENDS_ON, PrintParents(t.parents) + [CLOSE_BRACKET, CLOSE_BRACE]);
    assert PrintTask(t) == (PrintAll(t.spelling) + [QUOTE] + DEPENDS_ON)
                           + (PrintParents(t.parents) + [CLOSE_BRACKET, CLOSE_BRACE]);
  }

  lemma QuestionBackward(s: Rules, w: Text) returns (gs: seq<Glyph>, rest: Text)
    requires Ready(s) && TaskStart(s) && Accepts(s, w)
    ensures ValidQuestion(s.Context(), DecodeAll(gs))
    ensures w == PrintAll(gs) + [QUOTE] + DEPENDS_ON + rest
    ensures Ready(Listing(s, Task(gs, []))) && Accepts(Listing(s, Task(gs, [])), rest)
  {
    var body, after := QuestionCloses(s, w);
    gs := ReadIsQuestion(s.Context(), body);
    QuestionIsRead(s.Context(), gs);
    var t := Task(gs, []);
    var closed := QuestionCharacter(s.(scan := FinalScan(t)), QUOTE).value;
    rest := LiteralIsRead(closed, after);
    assert closed.(literal := [], phase := closed.after) == Listing(s, t);
  }

  lemma Regroup(a: Text, b: Text, c: Text, d: Text, e: Text, f: Text)
    requires c + d == e + f
    ensures a + (b + c + d) == a + b + e + f
  {
    assert b + c + d == b + (c + d);
    assert a + b + e + f == a + b + (e + f);
  }

  lemma TaskText(w: Text, list: Text, after: Text, rest: Text, t: Task)
    requires Printable(t)
    requires w == PrintAll(t.spelling) + [QUOTE] + DEPENDS_ON + list
    requires list == PrintParents(t.parents) + [CLOSE_BRACKET] + after && after == [CLOSE_BRACE] + rest
    ensures w == PrintTask(t) + rest
  {
    var head, list1 := PrintAll(t.spelling) + [QUOTE] + DEPENDS_ON, PrintParents(t.parents);
    assert [CLOSE_BRACKET] + after == [CLOSE_BRACKET, CLOSE_BRACE] + rest;
    Regroup(head, list1, [CLOSE_BRACKET], after, [CLOSE_BRACKET, CLOSE_BRACE], rest);
  }

  /** An accepting run at the start of a task reads a valid task. */
  lemma TaskBackward(s: Rules, w: Text) returns (t: Task, rest: Text)
    requires Ready(s) && TaskStart(s) && Accepts(s, w)
    ensures ValidTask(s, t) && Printable(t)
    ensures w == PrintTask(t) + rest
    ensures Ready(AfterTask(s, t)) && Accepts(AfterTask(s, t), rest)
  {
    var gs, list := QuestionBackward(s, w);
    var listing := Listing(s, Task(gs, []));
    var ps, after := ParentsBackward(listing, list);
    t := Task(gs, ps);
    assert [] + ps == ps;
    var closing := Named(listing, ps).Expect([CLOSE_BRACE], TasksAfter);
    rest := LiteralIsRead(closing, after);
    assert closing.(literal := [], phase := TasksAfter) == AfterTask(s, t);
    assert ListTail(listing, ps) == PrintParents(ps);
    TaskText(w, list, after, rest, t);
  }

  // The whole graph

  predicate BetweenTasks(s: Rules) {
    s.phase.TasksAfter? && 1 <= |s.questions| <= 4 && s.literal == []
  }

  /** The state at the start of the next task. */
  function NextTask(s: Rules): (r: Rules) {
    s.(scan := EMPTY, phase := Question, literal := [], after := Question)
  }

  /** The remaining tasks meet the contract, given what the state remembers of the earlier ones. */
  predicate ValidRest(s: Rules, ts: seq<Task>)
    decreases |ts|
  {
    if ts == [] then !s.requirement || (|s.questions| >= 2 && s.hasDependency)
    else |s.questions| < 4 && ValidTask(s, ts[0]) && ValidRest(AfterTask(s, ts[0]), ts[1..])
  }

  /** Where a run over the remaining tasks ends. */
  function AfterAll(s: Rules, ts: seq<Task>): (r: Rules)
    decreases |ts|
  {
    if ts == [] then s.(phase := Done, literal := [], after := Done)
    else AfterAll(AfterTask(NextTask(s), ts[0]), ts[1..])
  }

  lemma StepToNext(s: Rules)
    requires Ready(s) && BetweenTasks(s) && |s.questions| < 4
    ensures Run(s, [COMMA] + NEXT_TASK) == Some(NextTask(s))
  {
    RunThenLiteral(s, COMMA, s.(scan := EMPTY).Expect(NEXT_TASK, Question));
  }

  lemma StepToDone(s: Rules)
    requires Ready(s) && BetweenTasks(s) && ValidRest(s, [])
    ensures Run(s, [CLOSE_BRACKET, CLOSE_BRACE]) == Some(AfterAll(s, []))
  {
    RunThenLiteral(s, CLOSE_BRACKET, s.Expect([CLOSE_BRACE], Done));
    assert [CLOSE_BRACKET, CLOSE_BRACE] == [CLOSE_BRACKET] + [CLOSE_BRACE];
  }

  /** One more task is read to the state that records it. */
  ghost predicate ReadsOne(s: Rules, t: Task)
    requires Ready(s) && Printable(t)
  {
    Run(s, [COMMA] + NEXT_TASK + PrintTask(t)) == Some(AfterTask(NextTask(s), t))
  }

  lemma OneForward(s: Rules, t: Task)
    requires Ready(s) && BetweenTasks(s) && |s.questions| < 4 && ValidTask(NextTask(s), t)
    ensures Printable(t) && ReadsOne(s, t)
    ensures Ready(AfterTask(NextTask(s), t)) && BetweenTasks(AfterTask(NextTask(s), t))
  {
    StepToNext(s);
    TaskForward(NextTask(s), t);
    RunVia(s, [COMMA] + NEXT_TASK, NextTask(s), PrintTask(t));
  }

  /** `ValidRest` reads only the questions, the dependency flag and the fixed parameters. */
  lemma {:induction false} ValidRestScanFree(s: Rules, r: Rules, ts: seq<Task>)
    requires r == s.(scan := r.scan, phase := r.phase, literal := r.literal, after := r.after, parents := r.parents)
    ensures ValidRest(s, ts) == ValidRest(r, ts)
    decreases |ts|
  {
    if ts == [] {
    } else {
      ValidRestScanFree(AfterTask(s, ts[0]), AfterTask(r, ts[0]), ts[1..]);
    }
  }

  /** The automaton stands between tasks and the tasks to come are valid. */
  ghost predicate Awaits(s: Rules, ts: seq<Task>) {
    Ready(s) && BetweenTasks(s) && ValidRest(NextTask(s), ts)
  }

  /** The first of some valid tasks is read, and the others stay valid. */
  lemma FirstForward(s: Rules, ts: seq<Task>, after: Rules)
    requires Awaits(s, ts) && ts != [] && after == AfterTask(NextTask(s), ts[0])
    ensures Printable(ts[0]) && ReadsOne(s, ts[0]) && Awaits(after, ts[1..])
  {
    OneForward(s, ts[0]);
    ValidRestScanFree(after, NextTask(after), ts[1..]);
  }

  lemma {:induction false} RestForward(s: Rules, ts: seq<Task>)
    requires Awaits(s, ts)
    ensures CanPrintAll(ts)
    ensures Run(s, PrintRest(ts)) == Some(AfterAll(s, ts))
    decreases |ts|
  {
    if ts == [] {
      StepToDone(s);
    } else {
      var after := AfterTask(NextTask(s), ts[0]);
      FirstForward(s, ts, after);
      RestForward(after, ts[1..]);
      RunVia(s, [COMMA] + NEXT_TASK + PrintTask(ts[0]), after, PrintRest(ts[1..]));
    }
  }

  lemma DoneIsFinal(s: Rules, w: Text)
    requires Ready(s) && s.phase.Done? && Run(s, w).Some?
    ensures w == []
  {}

  /** The two ways an accepting run can go on between tasks. */
  lemma BetweenStep(s: Rules, w: Text) returns (rest: Text)
    requires Ready(s) && BetweenTasks(s) && Accepts(s, w)
    ensures || (w == [COMMA] + NEXT_TASK + rest && |s.questions| < 4
                && Ready(NextTask(s)) && Accepts(NextTask(s), rest))
            || (w == [CLOSE_BRACKET, CLOSE_BRACE] && ValidRest(s, []))
  {
    var next := Advance(s, w[0]).value;
    assert w == [w[0]] + w[1..];
    rest := LiteralIsRead(next, w[1..]);
    if w[0] == COMMA {
      assert next.(literal := [], phase := Question) == NextTask(s);
    } else {
      DoneIsFinal(next.(literal := [], phase := Done), rest);
    }
  }

  lemma RestText(w: Text, after: Text, t: Task, tail: seq<Task>)
    requires Printable(t) && CanPrintAll(tail)
    requires w == [COMMA] + NEXT_TASK + after && after == PrintTask(t) + PrintRest(tail)
    ensures w == PrintRest([t] + tail)
  {
    assert ([t] + tail)[1..] == tail;
  }

  lemma {:induction false} RestBackward(s: Rules, w: Text) returns (ts: seq<Task>)
    requires Ready(s) && BetweenTasks(s) && Accepts(s, w)
    ensures ValidRest(NextTask(s), ts)
    ensures CanPrintAll(ts) && w == PrintRest(ts)
    decreases |w|
  {
    var after := BetweenStep(s, w);
    if w == [CLOSE_BRACKET, CLOSE_BRACE] {
      ts := [];
    } else {
      var start := NextTask(s);
      var t, rest := TaskBackward(start, after);
      var tail := RestBackward(AfterTask(start, t), rest);
      ValidRestScanFree(AfterTask(start, t), NextTask(AfterTask(start, t)), tail);
      ts := [t] + tail;
      assert ts[1..] == tail;
      RestText(w, after, t, tail);
    }
  }

  // From the automaton's bookkeeping to the contract

  function Values(ts: seq<Task>): (vs: seq<Text>)
    ensures |vs| == |ts|
  {
    seq(|ts|, i requires 0 <= i < |ts| => Value(ts[i]))
  }

  predicate AnyParents(ts: seq<Task>) {
    exists i :: 0 <= i < |ts| && ts[i].parents != []
  }

  /** The state remembers exactly the tasks `done`. */
  predicate Remembers(s: Rules, done: seq<Task>) {
    s.questions == Values(done) && s.hasDependency == AnyParents(done)
  }

  lemma RemembersNext(s: Rules, done: seq<Task>, t: Task)
    requires Remembers(s, done)
    ensures Remembers(AfterTask(s, t), done + [t])
  {
    var more := done + [t];
    assert Values(more) == Values(done) + [Value(t)];
    if t.parents != [] {
      assert more[|done|] == t;
    }
    if AnyParents(done) {
      var i :| 0 <= i < |done| && done[i].parents != [];
      assert more[i] == done[i];
    }
    if AnyParents(more) && t.parents == [] {
      var i :| 0 <= i < |more| && more[i].parents != [];
      assert done[i] == more[i];
    }
  }

  /** Task `i` is valid given the tasks before it. */
  predicate ValidAt(maxBytes: nat, goal: Text, ts: seq<Task>, i: nat)
    requires i < |ts|
  {
    && ValidQuestion(Context(maxBytes, goal, Values(ts[..i])), DecodeAll(ts[i].spelling))
    && ValidParents(i, ts[i].parents)
  }

  /** The contract task by task, as the automaton checks it. */
  predicate Stepwise(maxBytes: nat, goal: Text, ts: seq<Task>) {
    forall i :: 0 <= i < |ts| ==> ValidAt(maxBytes, goal, ts, i)
  }

  predicate RequirementMet(requirement: bool, ts: seq<Task>) {
    requirement ==> |ts| >= 2 && AnyParents(ts)
  }

  lemma Shift(done: seq<Task>, ts: seq<Task>)
    requires ts != []
    ensures done + [ts[0]] + ts[1..] == done + ts
  {}

  lemma StepwiseNext(s: Rules, done: seq<Task>, t: Task)
    requires Remembers(s, done) && Stepwise(s.questionMaxBytes, s.goal, done) && ValidTask(s, t)
    ensures Stepwise(s.questionMaxBytes, s.goal, done + [t])
  {
    var more := done + [t];
    forall i | 0 <= i < |more|
      ensures ValidAt(s.questionMaxBytes, s.goal, more, i)
    {
      if i < |done| {
        assert ValidAt(s.questionMaxBytes, s.goal, done, i);
        assert more[..i] == done[..i] && more[i] == done[i];
      } else {
        assert more[..i] == done;
      }
    }
  }

  lemma {:induction false} RestMeetsContract(s: Rules, done: seq<Task>, ts: seq<Task>)
    requires Remembers(s, done) && |done| <= 4 && Stepwise(s.questionMaxBytes, s.goal, done) && ValidRest(s, ts)
    ensures Stepwise(s.questionMaxBytes, s.goal, done + ts) && |done + ts| <= 4
    ensures RequirementMet(s.requirement, done + ts)
    decreases |ts|
  {
    if ts == [] {
      assert done + ts == done;
    } else {
      RemembersNext(s, done, ts[0]);
      StepwiseNext(s, done, ts[0]);
      Shift(done, ts);
      RestMeetsContract(AfterTask(s, ts[0]), done + [ts[0]], ts[1..]);
    }
  }

  lemma LastNeedsParents(done: seq<Task>, t: Task)
    requires AnyParents(done + [t]) && !AnyParents(done)
    ensures t.parents != []
  {
    var all := done + [t];
    assert forall i :: 0 <= i < |done| ==> all[i] == done[i];
    var i :| 0 <= i < |all| && all[i].parents != [];
  }

  lemma ContractMeetsTask(s: Rules, done: seq<Task>, ts: seq<Task>)
    requires Remembers(s, done) && ts != []
    requires Stepwise(s.questionMaxBytes, s.goal, done + ts) && |done + ts| <= 4
    requires RequirementMet(s.requirement, done + ts)
    ensures ValidTask(s, ts[0])
  {
    var all := done + ts;
    assert ValidAt(s.questionMaxBytes, s.goal, all, |done|);
    assert all[|done|] == ts[0] && all[..|done|] == done;
    if s.requirement && |done| == 3 && !s.hasDependency {
      assert ts == [ts[0]];
      LastNeedsParents(done, ts[0]);
    }
  }

  lemma {:induction false} ContractMeetsRest(s: Rules, done: seq<Task>, ts: seq<Task>)
    requires Remembers(s, done)
    requires Stepwise(s.questionMaxBytes, s.goal, done + ts) && |done + ts| <= 4
    requires RequirementMet(s.requirement, done + ts)
    ensures ValidRest(s, ts)
    decreases |ts|
  {
    if ts == [] {
      assert done + ts == done;
    } else {
      ContractMeetsTask(s, done, ts);
      RemembersNext(s, done, ts[0]);
      Shift(done, ts);
      ContractMeetsRest(AfterTask(s, ts[0]), done + [ts[0]], ts[1..]);
    }
  }

  /** Some task has a dependency, before and after escapes are decoded. */
  lemma AnyParentsMeans(ts: seq<Task>)
    ensures AnyParents(ts) <==> exists i :: 0 <= i < |ts| && Meaning(ts)[i].parents != []
  {
    if AnyParents(ts) {
      var i :| 0 <= i < |ts| && ts[i].parents != [];
      assert Meaning(ts)[i].parents != [];
    }
  }

  lemma StepwiseMeetsContract(goal: Text, requirement: bool, maxBytes: nat, ts: seq<Task>)
    requires 1 <= |ts| <= 4 && Stepwise(maxBytes, Strip(goal), ts) && RequirementMet(requirement, ts)
    ensures Contract(goal, requirement, maxBytes, Meaning(ts))
  {
    var k, g := Context(maxBytes, Strip(goal), []), Meaning(ts);
    AnyParentsMeans(ts);
    forall i, j | 0 <= i < j < |g| ensures Strip(g[i].question) != Strip(g[j].question) {
      assert ValidAt(maxBytes, k.goal, ts, j);
      assert Values(ts[..j])[i] == Value(ts[i]);
    }
    forall i | 0 <= i < |g| ensures ValidQuestion(k, g[i].question) && ValidParents(i, g[i].parents) {
      assert ValidAt(maxBytes, k.goal, ts, i);
    }
  }

  lemma ContractMeetsStepwise(goal: Text, requirement: bool, maxBytes: nat, ts: seq<Task>)
    requires Contract(goal, requirement, maxBytes, Meaning(ts))
    ensures 1 <= |ts| <= 4 && Stepwise(maxBytes, Strip(goal), ts) && RequirementMet(requirement, ts)
  {
    var k, g := Context(maxBytes, Strip(goal), []), Meaning(ts);
    AnyParentsMeans(ts);
    forall i | 0 <= i < |ts|
      ensures ValidAt(maxBytes, k.goal, ts, i)
    {
      assert ValidQuestion(k, g[i].question) && ValidParents(i, g[i].parents);
      forall j | 0 <= j < i ensures Values(ts[..i])[j] != Value(ts[i]) {
        assert Strip(g[j].question) != Strip(g[i].question);
      }
    }
  }

  // Main results

  /** The state the automaton is in when the first question starts. */
  function FirstTask(goal: Text, requirement: bool, maxBytes: nat): (s: Rules) {
    Fresh(goal, requirement, maxBytes).(literal := [], phase := Question)
  }

  /** Where the run over a whole graph ends. */
  function FinalState(goal: Text, requirement: bool, maxBytes: nat, ts: seq<Task>): (s: Rules)
    requires ts != []
  {
    AfterAll(AfterTask(FirstTask(goal, requirement, maxBytes), ts[0]), ts[1..])
  }

  lemma GraphForward(goal: Text, requirement: bool, maxBytes: nat, ts: seq<Task>)
    requires ts != [] && ValidRest(FirstTask(goal, requirement, maxBytes), ts)
    ensures CanPrintAll(ts)
    ensures Run(Fresh(goal, requirement, maxBytes), PrintGraph(ts))
         == Some(FinalState(goal, requirement, maxBytes, ts))
  {
    var initial := Fresh(goal, requirement, maxBytes);
    var s := FirstTask(goal, requirement, maxBytes);
    RunLiteral(initial);
    TaskForward(s, ts[0]);
    var after := AfterTask(s, ts[0]);
    ValidRestScanFree(after, NextTask(after), ts[1..]);
    RestForward(after, ts[1..]);
    RunConcat(initial, OPENING, PrintTask(ts[0]));
    RunConcat(initial, OPENING + PrintTask(ts[0]), PrintRest(ts[1..]));
  }

  lemma {:induction false} AfterAllRemembers(s: Rules, done: seq<Task>, ts: seq<Task>)
    requires Remembers(s, done)
    ensures Remembers(AfterAll(s, ts), done + ts) && AfterAll(s, ts).phase.Done?
    decreases |ts|
  {
    if ts == [] {
      assert done + ts == done;
    } else {
      Shift(done, ts);
      RemembersNext(NextTask(s), done, ts[0]);
      AfterAllRemembers(AfterTask(NextTask(s), ts[0]), done + [ts[0]], ts[1..]);
    }
  }

  lemma {:induction false} AfterAllParents(s: Rules, ts: seq<Task>)
    ensures AfterAll(s, ts).parents == if ts == [] then s.parents else ts[|ts| - 1].parents
    decreases |ts|
  {
    if ts == [] {
    } else {
      AfterAllParents(AfterTask(NextTask(s), ts[0]), ts[1..]);
    }
  }

  /** The automaton is done and has recorded the stripped questions and the dependencies of `ts`. */
  ghost predicate Records(s: Rules, ts: seq<Task>) {
    s.phase.Done? && ts != [] && Remembers(s, ts) && s.parents == ts[|ts| - 1].parents
  }

  lemma FinalStateRecords(goal: Text, requirement: bool, maxBytes: nat, ts: seq<Task>)
    requires ts != []
    ensures Records(FinalState(goal, requirement, maxBytes, ts), ts)
  {
    var s := FirstTask(goal, requirement, maxBytes);
    RemembersNext(s, [], ts[0]);
    assert [] + [ts[0]] == [ts[0]] && [ts[0]] + ts[1..] == ts;
    AfterAllRemembers(AfterTask(s, ts[0]), [ts[0]], ts[1..]);
    AfterAllParents(AfterTask(s, ts[0]), ts[1..]);
  }

  lemma ContractStarts(goal: Text, requirement: bool, maxBytes: nat, ts: seq<Task>)
    requires Contract(goal, requirement, maxBytes, Meaning(ts))
    ensures ts != [] && ValidRest(FirstTask(goal, requirement, maxBytes), ts)
  {
    ContractMeetsStepwise(goal, requirement, maxBytes, ts);
    assert [] + ts == ts;
    ContractMeetsRest(FirstTask(goal, requirement, maxBytes), [], ts);
  }

  /** Completeness: every spelling of every graph under contract is accepted character by character,
      and the automaton ends with the stripped questions and the dependencies of that graph. */
  lemma Completeness(goal: Text, requirement: bool, maxBytes: nat, ts: seq<Task>)
    requires Contract(goal, requirement, maxBytes, Meaning(ts))
    ensures CanPrintAll(ts)
    ensures var r := Run(Fresh(goal, requirement, maxBytes), PrintGraph(ts)); r.Some? && Records(r.value, ts)
  {
    ContractStarts(goal, requirement, maxBytes, ts);
    GraphForward(goal, requirement, maxBytes, ts);
    FinalStateRecords(goal, requirement, maxBytes, ts);
  }

  /** The spelling of one more task. */
  function PrintMore(t: Task): (w: Text)
    requires Printable(t)
  {
    [COMMA] + NEXT_TASK + PrintTask(t)
  }

  /** The spelling of the next `k` tasks. */
  function PrintSome(ts: seq<Task>, k: nat): (w: Text)
    requires k <= |ts| && CanPrintAll(ts)
  {
    if k == 0 then [] else PrintSome(ts, k - 1) + PrintMore(ts[k - 1])
  }

  lemma Associate(a: Text, b: Text, c: Text)
    ensures a + (b + c) == a + b + c
  {}

  lemma {:induction false} PrintSomeIsPrefix(ts: seq<Task>, k: nat)
    requires k <= |ts| && CanPrintAll(ts)
    ensures PrintRest(ts) == PrintSome(ts, k) + PrintRest(ts[k..])
    decreases k
  {
    if k == 0 {
      assert ts[0..] == ts;
      assert [] + PrintRest(ts) == PrintRest(ts);
    } else {
      PrintSomeIsPrefix(ts, k - 1);
      assert ts[k - 1..][1..] == ts[k..];
      Associate(PrintSome(ts, k - 1), PrintMore(ts[k - 1]), PrintRest(ts[k..]));
    }
  }

  /** The state after the next `k` tasks. */
  function AfterSome(s: Rules, ts: seq<Task>, k: nat): (r: Rules)
    requires k <= |ts|
  {
    if k == 0 then s else AfterTask(NextTask(AfterSome(s, ts, k - 1)), ts[k - 1])
  }

  lemma ValuesGrow(qs: seq<Text>, ts: seq<Task>, k: nat)
    requires 0 < k <= |ts|
    ensures qs + Values(ts[..k - 1]) + [Value(ts[k - 1])] == qs + Values(ts[..k])
  {
    assert Values(ts[..k]) == Values(ts[..k - 1]) + [Value(ts[k - 1])];
  }

  lemma {:induction false} AfterSomeHolds(s: Rules, ts: seq<Task>, k: nat)
    requires k <= |ts|
    ensures AfterSome(s, ts, k).questions == s.questions + Values(ts[..k])
    ensures k > 0 ==> AfterSome(s, ts, k).parents == ts[k - 1].parents
    ensures k > 0 ==> AfterSome(s, ts, k).scan.text == DecodeAll(ts[k - 1].spelling)
    decreases k
  {
    if k == 0 {
    } else {
      AfterSomeHolds(s, ts, k - 1);
      ValuesGrow(s.questions, ts, k);
    }
  }

  /** What is still to come stays valid. */
  lemma {:induction false} SomeStayValid(s: Rules, ts: seq<Task>, k: nat)
    requires Awaits(s, ts) && k <= |ts|
    ensures Awaits(AfterSome(s, ts, k), ts[k..])
    decreases k
  {
    if k == 0 {
      assert ts[0..] == ts;
    } else {
      SomeStayValid(s, ts, k - 1);
      var rest := ts[k - 1..];
      FirstForward(AfterSome(s, ts, k - 1), rest, AfterTask(NextTask(AfterSome(s, ts, k - 1)), rest[0]));
      assert rest[1..] == ts[k..];
    }
  }

  /** `k` more tasks are read to the state that records them. */
  ghost predicate ReadsSome(s: Rules, ts: seq<Task>, k: nat)
    requires Ready(s) && k <= |ts| && CanPrintAll(ts)
  {
    Run(s, PrintSome(ts, k)) == Some(AfterSome(s, ts, k))
  }

  lemma SomeStep(s: Rules, ts: seq<Task>, k: nat, before: Rules)
    requires Ready(s) && 0 < k <= |ts| && CanPrintAll(ts)
    requires before == AfterSome(s, ts, k - 1) && Awaits(before, ts[k - 1..])
    ensures ReadsSome(s, ts, k - 1) ==> ReadsSome(s, ts, k)
  {
    FirstForward(before, ts[k - 1..], AfterTask(NextTask(before), ts[k - 1]));
    if ReadsSome(s, ts, k - 1) {
      RunVia(s, PrintSome(ts, k - 1), before, PrintMore(ts[k - 1]));
    }
  }

  lemma {:induction false} SomeForward(s: Rules, ts: seq<Task>, k: nat)
    requires Awaits(s, ts) && k <= |ts| && CanPrintAll(ts)
    ensures ReadsSome(s, ts, k)
    decreases k
  {
    if k == 0 {
      assert PrintSome(ts, 0) == [];
    } else {
      SomeStayValid(s, ts, k - 1);
      SomeStep(s, ts, k, AfterSome(s, ts, k - 1));
      SomeForward(s, ts, k - 1);
    }
  }

  /** The spelling of the tasks up to the end of task `n`. */
  function PrintUpTo(ts: seq<Task>, n: nat): (w: Text)
    requires n < |ts| && CanPrintAll(ts)
  {
    OPENING + PrintTask(ts[0]) + PrintSome(ts[1..], n)
  }

  lemma UpToForward(goal: Text, requirement: bool, maxBytes: nat, ts: seq<Task>, n: nat)
    requires ValidRest(FirstTask(goal, requirement, maxBytes), ts) && n < |ts| && CanPrintAll(ts)
    ensures Run(Fresh(goal, requirement, maxBytes), PrintUpTo(ts, n))
         == Some(AfterSome(AfterTask(FirstTask(goal, requirement, maxBytes), ts[0]), ts[1..], n))
  {
    var initial := Fresh(goal, requirement, maxBytes);
    var s := FirstTask(goal, requirement, maxBytes);
    RunLiteral(initial);
    TaskForward(s, ts[0]);
    var after := AfterTask(s, ts[0]);
    ValidRestScanFree(after, NextTask(after), ts[1..]);
    SomeForward(after, ts[1..], n);
    RunConcat(initial, OPENING, PrintTask(ts[0]));
    RunConcat(initial, OPENING + PrintTask(ts[0]), PrintSome(ts[1..], n));
  }

  lemma ValuesOfTail(ts: seq<Task>, n: nat)
    requires n < |ts|
    ensures Values(ts[..n + 1]) == [Value(ts[0])] + Values(ts[1..][..n])
  {}

  lemma MeaningAt(ts: seq<Task>, n: nat)
    requires n < |ts|
    ensures Meaning(ts)[n] == Node(DecodeAll(ts[n].spelling), ts[n].parents) && (n > 0 ==> ts[1..][n - 1] == ts[n])
  {}

  lemma HeldAfter(after: Rules, ts: seq<Task>, n: nat)
    requires n < |ts| && after.questions == [Value(ts[0])] && Node(after.scan.text, after.parents) == Meaning(ts)[0]
    ensures var r := AfterSome(after, ts[1..], n);
            r.questions == Values(ts[..n + 1]) && Node(r.scan.text, r.parents) == Meaning(ts)[n]
  {
    AfterSomeHolds(after, ts[1..], n);
    ValuesOfTail(ts, n);
    MeaningAt(ts, n);
  }

  lemma UpToHolds(goal: Text, requirement: bool, maxBytes: nat, ts: seq<Task>, n: nat)
    requires n < |ts|
    ensures var r := AfterSome(AfterTask(FirstTask(goal, requirement, maxBytes), ts[0]), ts[1..], n);
            r.questions == Values(ts[..n + 1]) && Node(r.scan.text, r.parents) == Meaning(ts)[n]
  {
    HeldAfter(AfterTask(FirstTask(goal, requirement, maxBytes), ts[0]), ts, n);
  }

  /** The decoding is recovered: after each task of an accepted graph the automaton holds that task's question text
      and dependency list, and the stripped questions so far. */
  lemma TasksAreRecovered(goal: Text, requirement: bool, maxBytes: nat, ts: seq<Task>, n: nat)
    requires Contract(goal, requirement, maxBytes, Meaning(ts)) && n < |ts|
    ensures CanPrintAll(ts)
    ensures PrintGraph(ts) == PrintUpTo(ts, n) + PrintRest(ts[n + 1..])
    ensures var r := Run(Fresh(goal, requirement, maxBytes), PrintUpTo(ts, n));
            && r.Some?
            && r.value.questions == Values(ts[..n + 1])
            && Node(r.value.scan.text, r.value.parents) == Meaning(ts)[n]
  {
    ContractStarts(goal, requirement, maxBytes, ts);
    GraphForward(goal, requirement, maxBytes, ts);
    UpToForward(goal, requirement, maxBytes, ts, n);
    UpToHolds(goal, requirement, maxBytes, ts, n);
    PrintSomeIsPrefix(ts[1..], n);
    assert ts[1..][n..] == ts[n + 1..];
    Associate(OPENING + PrintTask(ts[0]), PrintSome(ts[1..], n), PrintRest(ts[n + 1..]));
  }

  lemma GraphBackward(goal: Text, requirement: bool, maxBytes: nat, w: Text) returns (ts: seq<Task>)
    requires Accepts(Fresh(goal, requirement, maxBytes), w)
    ensures ts != [] && ValidRest(FirstTask(goal, requirement, maxBytes), ts)
    ensures CanPrintAll(ts) && w == PrintGraph(ts)
  {
    var initial := Fresh(goal, requirement, maxBytes);
    var s := FirstTask(goal, requirement, maxBytes);
    var body := LiteralIsRead(initial, w);
    assert initial.(literal := [], phase := initial.after) == s;
    var t, rest := TaskBackward(s, body);
    var after := AfterTask(s, t);
    var tail := RestBackward(after, rest);
    ValidRestScanFree(after, NextTask(after), tail);
    ts := [t] + tail;
    assert ts[1..] == tail;
    assert w == OPENING + PrintTask(t) + PrintRest(tail);
  }

  /** Soundness: whatever drives the automaton to the end is a spelling of a graph under contract. */
  lemma Soundness(goal: Text, requirement: bool, maxBytes: nat, w: Text) returns (ts: seq<Task>)
    requires Accepts(Fresh(goal, requirement, maxBytes), w)
    ensures Contract(goal, requirement, maxBytes, Meaning(ts))
    ensures CanPrintAll(ts) && w == PrintGraph(ts)
  {
    ts := GraphBackward(goal, requirement, maxBytes, w);
    assert [] + ts == ts;
    RestMeetsContract(FirstTask(goal, requirement, maxBytes), [], ts);
    StepwiseMeetsContract(goal, requirement, maxBytes, ts);
  }

  ghost predicate Spells(goal: Text, requirement: bool, maxBytes: nat, w: Text, ts: seq<Task>) {
    && Contract(goal, requirement, maxBytes, Meaning(ts))
    && CanPrintAll(ts)
    && w == PrintGraph(ts)
  }

  /** The automaton accepts exactly the compact spellings of the graphs under contract. */
  lemma LanguageIsContract(goal: Text, requirement: bool, maxBytes: nat, w: Text)
    ensures Accepts(Fresh(goal, requirement, maxBytes), w) <==> exists ts :: Spells(goal, requirement, maxBytes, w, ts)
  {
    if Accepts(Fresh(goal, requirement, maxBytes), w) {
      var ts := Soundness(goal, requirement, maxBytes, w);
      assert Spells(goal, requirement, maxBytes, w, ts);
    }
    if ts :| Spells(goal, requirement, maxBytes, w, ts) {
      Completeness(goal, requirement, maxBytes, ts);
    }
  }
}
