/** Whole runs of the graph automaton: invariant, completion, ranking and the exact bound for liveness. */
module GraphRuns {
  import opened Unicode
  import opened QuestionScanner
  import opened JsonSpelling
  import opened GraphRules
  import opened GraphLanguage
  import opened GraphLiveness

  /** The phase the automaton is in once the literal it is reading is over. */
  function Coming(s: Rules): (p: Phase) {
    if s.phase.Literal? then s.after else s.phase
  }

  /** Structural invariant of every run, whatever the byte bound. */
  predicate Structure(s: Rules) {
    && Ready(s)
    && |s.questions| <= 4
    && match Coming(s)
       case Question =>
         |s.questions| < 4 && s.scan.textBytes <= s.questionMaxBytes && (s.phase.Literal? ==> s.scan == EMPTY)
       case Parents => 1 <= |s.questions| && s.parents == []
       case ParentAfter => InParents(s) && s.hasDependency
       case ParentRequired => InParents(s) && SomeAvailable(s)
       case TasksAfter => 1 <= |s.questions| && (s.requirement && |s.questions| == 4 ==> s.hasDependency)
       case Done => true
       case Literal => false
  }

  /** The invariant that makes completion possible. */
  predicate Alive(s: Rules) {
    Structure(s) && (Coming(s).Question? ==> ScanAlive(s.Context(), s.scan))
  }

  lemma ParentKeepsStructure(s: Rules, c: Code)
    requires Structure(s) && s.phase in {Parents, ParentAfter, ParentRequired} && ParentCharacter(s, c).Some?
    ensures Structure(ParentCharacter(s, c).value) && !Coming(ParentCharacter(s, c).value).Question?
  {
    if s.phase != ParentAfter && NamesParent(s, c) {
      NamedInParents(s, c - 0x30);
    } else if s.phase == ParentAfter && c == COMMA {
      var i: nat :| i < |s.questions| && Available(s, i);
      assert Available(s.(phase := ParentRequired), i);
    }
  }

  lemma ScanKeepsBytes(k: Context, q: Scan, c: Code)
    requires WellFormed(q) && q.textBytes <= k.maxBytes && ScanCharacter(k, q, c).Continue?
    ensures ScanCharacter(k, q, c).scan.textBytes <= k.maxBytes
  {}

  lemma AdvanceKeepsStructure(s: Rules, c: Code)
    requires Structure(s) && Advance(s, c).Some?
    ensures Structure(Advance(s, c).value)
  {
    match s.phase {
      case Literal =>
      case Question => if ScanCharacter(s.Context(), s.scan, c).Continue? { ScanKeepsBytes(s.Context(), s.scan, c); }
      case TasksAfter =>
      case _ => ParentKeepsStructure(s, c);
    }
  }

  /** Every transition keeps the automaton able to finish, from a bound of two bytes on. */
  lemma AdvanceKeepsAlive(s: Rules, c: Code)
    requires Alive(s) && s.questionMaxBytes >= 2 && Advance(s, c).Some?
    ensures Alive(Advance(s, c).value) && Advance(s, c).value.questionMaxBytes == s.questionMaxBytes
  {
    AdvanceKeepsStructure(s, c);
    match s.phase {
      case Literal =>
      case Question => if ScanCharacter(s.Context(), s.scan, c).Continue? { ScanKeepsAlive(s.Context(), s.scan, c); }
      case TasksAfter =>
      case _ => ParentKeepsStructure(s, c);
    }
  }

  lemma {:induction false} RunKeepsAlive(s: Rules, w: Text)
    requires Alive(s) && s.questionMaxBytes >= 2 && Run(s, w).Some?
    ensures Alive(Run(s, w).value)
    decreases |w|
  {
    if w == [] {
    } else {
      AdvanceKeepsAlive(s, w[0]);
      RunKeepsAlive(Advance(s, w[0]).value, w[1..]);
    }
  }

  // Completion, from the end backwards

  lemma AcceptsAfter(s: Rules, a: Text, mid: Rules, b: Text)
    requires Ready(s) && Run(s, a) == Some(mid) && Accepts(mid, b)
    ensures Accepts(s, a + b)
  {
    RunConcat(s, a, b);
  }

  /** Some question can be asked next. */
  lemma FreshQuestion(s: Rules) returns (gs: seq<Glyph>)
    requires Ready(s) && s.questionMaxBytes >= 2 && |s.questions| <= 3
    ensures ValidQuestion(s.Context(), DecodeAll(gs))
  {
    var body := FinishQuestion(s.Context(), EMPTY);
    gs := ReadIsQuestion(s.Context(), body);
  }

  lemma FinishBetween(s: Rules) returns (w: Text)
    requires Structure(s) && s.phase.TasksAfter? && s.literal == [] && s.questionMaxBytes >= 2
    ensures Accepts(s, w)
  {
    if ValidRest(s, []) {
      StepToDone(s);
      w := [CLOSE_BRACKET, CLOSE_BRACE];
    } else {
      StepToNext(s);
      var start := NextTask(s);
      var gs := FreshQuestion(start);
      var t := Task(gs, [0]);
      TaskForward(start, t);
      var after := AfterTask(start, t);
      StepToDone(after);
      AcceptsAfter(start, PrintTask(t), after, [CLOSE_BRACKET, CLOSE_BRACE]);
      AcceptsAfter(s, [COMMA] + NEXT_TASK, start, PrintTask(t) + [CLOSE_BRACKET, CLOSE_BRACE]);
      w := [COMMA] + NEXT_TASK + (PrintTask(t) + [CLOSE_BRACKET, CLOSE_BRACE]);
    }
  }

  lemma FinishClosable(s: Rules) returns (w: Text)
    requires Structure(s) && (s.phase.Parents? || s.phase.ParentAfter?) && MayClose(s) && s.questionMaxBytes >= 2
    ensures Accepts(s, w)
  {
    ListClose(s);
    var next := s.(phase := TasksAfter, literal := [], after := TasksAfter);
    var rest := FinishBetween(next);
    AcceptsAfter(s, [CLOSE_BRACKET, CLOSE_BRACE], next, rest);
    w := [CLOSE_BRACKET, CLOSE_BRACE] + rest;
  }

  lemma FinishNaming(s: Rules, p: nat) returns (w: Text)
    requires Structure(s) && (s.phase.Parents? || s.phase.ParentRequired?) && s.questionMaxBytes >= 2
    requires Available(s, p)
    ensures Accepts(s, w)
  {
    assert InParents(s);
    StepNamesParent(s, p);
    NamedInParents(s, p);
    var next := Named(s, [p]);
    var rest := FinishClosable(next);
    AcceptsAfter(s, [0x30 + p], next, rest);
    w := [0x30 + p] + rest;
  }

  lemma FinishParents(s: Rules) returns (w: Text)
    requires Structure(s) && s.phase in {Parents, ParentAfter, ParentRequired} && s.questionMaxBytes >= 2
    ensures Accepts(s, w)
  {
    if s.phase.ParentRequired? {
      var p: nat :| Available(s, p);
      w := FinishNaming(s, p);
    } else if MayClose(s) {
      w := FinishClosable(s);
    } else {
      assert Available(s, 0);
      w := FinishNaming(s, 0);
    }
  }

  lemma FinishAsking(s: Rules) returns (w: Text)
    requires Alive(s) && s.phase.Question? && s.questionMaxBytes >= 2
    ensures Accepts(s, w)
  {
    var body := FinishQuestion(s.Context(), s.scan);
    RunScan(s, body);
    var read := s.(scan := ScanAll(s.Context(), s.scan, body).scan);
    var closed := read.(questions := s.questions + [Strip(read.scan.text)], parents := []).Expect(DEPENDS_ON, Parents);
    assert Advance(read, QUOTE) == Some(closed);
    RunThenLiteral(read, QUOTE, closed);
    var listing := closed.(literal := [], phase := Parents);
    var rest := FinishParents(listing);
    AcceptsAfter(read, [QUOTE] + DEPENDS_ON, listing, rest);
    AcceptsAfter(s, body, read, [QUOTE] + DEPENDS_ON + rest);
    w := body + ([QUOTE] + DEPENDS_ON + rest);
  }

  lemma FinishPhase(s: Rules) returns (w: Text)
    requires Alive(s) && !s.phase.Literal? && s.literal == [] && s.questionMaxBytes >= 2
    ensures Accepts(s, w)
  {
    match s.phase {
      case Question => w := FinishAsking(s);
      case TasksAfter => w := FinishBetween(s);
      case Done => w := [];
      case _ => w := FinishParents(s);
    }
  }

  /** From every live state some continuation reaches the end of the graph. */
  lemma Finish(s: Rules) returns (w: Text)
    requires Alive(s) && s.questionMaxBytes >= 2 && (!s.phase.Literal? ==> s.literal == [])
    ensures Accepts(s, w)
  {
    if s.phase.Literal? {
      RunLiteral(s);
      var next := s.(literal := [], phase := s.after);
      var rest := FinishPhase(next);
      AcceptsAfter(s, s.literal, next, rest);
      w := s.literal + rest;
    } else {
      w := FinishPhase(s);
    }
  }

  lemma {:induction false} LiteralEmptied(s: Rules, w: Text)
    requires Ready(s) && (!s.phase.Literal? ==> s.literal == []) && Run(s, w).Some?
    ensures var t := Run(s, w).value; !t.phase.Literal? ==> t.literal == []
    decreases |w|
  {
    if w == [] {
    } else {
      var next := Advance(s, w[0]).value;
      if !s.phase.Literal? && !s.phase.Question? && !s.phase.TasksAfter? {
        assert Advance(s, w[0]) == ParentCharacter(s, w[0]);
      }
      LiteralEmptied(next, w[1..]);
    }
  }

  // Ranking

  function EscapeRank(q: Scan): (n: nat)
    requires WellFormed(q)
    ensures 1 <= n <= 12
  {
    match q.escape
    case NoEscape => if q.high.None? then 12 else 6
    case Backslash => if q.high.None? then 11 else 5
    case UnicodeEscape(digits) => (if q.high.None? then 10 else 4) - |digits|
  }

  function TaskCost(maxBytes: nat): (n: nat) {
    13 * maxBytes + |NEXT_TASK| + |DEPENDS_ON| + 30
  }

  function AfterRank(maxBytes: nat, asked: nat): (n: nat)
    requires asked <= 4
  {
    2 + (4 - asked) * TaskCost(maxBytes)
  }

  function ListRank(maxBytes: nat, asked: nat, named: nat): (n: int)
    requires 1 <= asked <= 4
  {
    AfterRank(maxBytes, asked) + 1 + 2 * (asked - 1 - named)
  }

  function PhaseRank(s: Rules, p: Phase): (n: int)
    requires |s.questions| <= 4 && WellFormed(s.scan)
  {
    match p
    case Question =>
      if |s.questions| == 4 then 0
      else 13 * (s.questionMaxBytes - s.scan.textBytes) + EscapeRank(s.scan) + |DEPENDS_ON|
           + ListRank(s.questionMaxBytes, |s.questions| + 1, 0) + 1
    case TasksAfter => AfterRank(s.questionMaxBytes, |s.questions|)
    case Done => 0
    case Literal => 0
    case _ =>
      if s.questions == [] then 0
      else ListRank(s.questionMaxBytes, |s.questions|, |s.parents|) + (if p == ParentRequired then 0 else 1)
  }

  /** An upper bound on the number of characters the automaton can still read. */
  function Rank(s: Rules): (n: int)
    requires |s.questions| <= 4 && WellFormed(s.scan)
  {
    (if s.phase.Literal? then |s.literal| else 0) + PhaseRank(s, Coming(s))
  }

  lemma {:induction false} FewParents(n: nat, ps: seq<nat>)
    requires ValidParents(n, ps)
    ensures |ps| <= n
  {
    assert ps != [] ==> ps[0] < n;
    if n == 0 {
      assert ps == [];
    } else if j :| 0 <= j < |ps| && ps[j] == n - 1 {
      FewParents(n - 1, ps[..j] + ps[j + 1..]);
    } else {
      FewParents(n - 1, ps);
    }
  }

  lemma RankIsNatural(s: Rules)
    requires Structure(s)
    ensures Rank(s) >= 0
  {
    if InParents(s) {
      FewParents(|s.questions| - 1, s.parents);
    }
  }

  lemma ScanLowersRank(k: Context, q: Scan, c: Code)
    requires WellFormed(q) && ScanCharacter(k, q, c).Continue?
    ensures var r := ScanCharacter(k, q, c).scan;
            EscapeRank(r) - 13 * r.textBytes < EscapeRank(q) - 13 * q.textBytes
  {
    if q.escape.UnicodeEscape? {
      assert ScanCharacter(k, q, c) == ScanHex(k, q, c);
    }
  }

  lemma NextTaskLowersRank(maxBytes: nat, asked: nat)
    requires asked < 4
    ensures |NEXT_TASK| + 13 * maxBytes + 12 + |DEPENDS_ON| + ListRank(maxBytes, asked + 1, 0) + 1
          < AfterRank(maxBytes, asked)
  {
    var cost := TaskCost(maxBytes);
    assert (4 - asked) * cost == (3 - asked) * cost + cost;
  }

  lemma AskingLowersRank(s: Rules, c: Code)
    requires Structure(s) && s.phase.Question? && QuestionCharacter(s, c).Some?
    ensures var next := QuestionCharacter(s, c).value;
            |next.questions| <= 4 && WellFormed(next.scan) && Rank(next) < Rank(s)
  {
    if ScanCharacter(s.Context(), s.scan, c).Continue? {
      ScanLowersRank(s.Context(), s.scan, c);
    }
  }

  lemma BetweenLowersRank(s: Rules, c: Code)
    requires Structure(s) && s.phase.TasksAfter? && Advance(s, c).Some?
    ensures |Advance(s, c).value.questions| <= 4 && Rank(Advance(s, c).value) < Rank(s)
  {
    if c == COMMA && |s.questions| < 4 {
      NextTaskLowersRank(s.questionMaxBytes, |s.questions|);
    }
  }

  lemma ParentLowersRank(s: Rules, c: Code)
    requires Structure(s) && s.phase in {Parents, ParentAfter, ParentRequired} && ParentCharacter(s, c).Some?
    ensures Rank(ParentCharacter(s, c).value) < Rank(s)
  {
    var next := ParentCharacter(s, c).value;
    ParentKeepsStructure(s, c);
    FewParents(|s.questions| - 1, s.parents);
  }

  /** Every character lowers the rank. */
  lemma AdvanceLowersRank(s: Rules, c: Code)
    requires Structure(s) && Advance(s, c).Some?
    ensures |Advance(s, c).value.questions| <= 4
    ensures Rank(Advance(s, c).value) < Rank(s)
  {
    match s.phase {
      case Literal =>
      case Question => AskingLowersRank(s, c);
      case TasksAfter => BetweenLowersRank(s, c);
      case _ => ParentLowersRank(s, c);
    }
  }

  /** No run is longer than the rank of the state it starts in. */
  lemma {:induction false} RunIsBounded(s: Rules, w: Text)
    requires Structure(s) && Run(s, w).Some?
    ensures |w| <= Rank(s)
    decreases |w|
  {
    if w == [] {
      RankIsNatural(s);
    } else {
      AdvanceKeepsStructure(s, w[0]);
      AdvanceLowersRank(s, w[0]);
      RunIsBounded(Advance(s, w[0]).value, w[1..]);
    }
  }

  // Main results

  lemma RankAtStart(goal: Text, requirement: bool, maxBytes: nat)
    ensures Structure(Fresh(goal, requirement, maxBytes))
    ensures Rank(Fresh(goal, requirement, maxBytes)) <= 52 * maxBytes + 300
  {
    var cost := TaskCost(maxBytes);
    assert AfterRank(maxBytes, 1) == 2 + 3 * cost;
  }

  /** Finiteness: whatever the model picks, generation ends after this many characters, for every bound. */
  lemma EveryRunEnds(goal: Text, requirement: bool, maxBytes: nat, w: Text)
    requires Run(Fresh(goal, requirement, maxBytes), w).Some?
    ensures |w| <= 52 * maxBytes + 300
  {
    RankAtStart(goal, requirement, maxBytes);
    RunIsBounded(Fresh(goal, requirement, maxBytes), w);
  }

  ghost predicate CanFinish(s: Rules)
    requires Ready(s)
  {
    exists w :: Accepts(s, w)
  }

  lemma {:induction false} AdvanceKeepsBound(s: Rules, w: Text)
    requires Ready(s) && Run(s, w).Some?
    ensures Run(s, w).value.questionMaxBytes == s.questionMaxBytes
    decreases |w|
  {
    if w == [] {
    } else {
      AdvanceKeepsBound(Advance(s, w[0]).value, w[1..]);
    }
  }

  /** Deadlock freedom: every reachable state has a continuation to a complete graph. */
  lemma DeadlockFree(goal: Text, requirement: bool, maxBytes: nat, w: Text)
    requires maxBytes >= 2 && Run(Fresh(goal, requirement, maxBytes), w).Some?
    ensures CanFinish(Run(Fresh(goal, requirement, maxBytes), w).value)
  {
    var initial := Fresh(goal, requirement, maxBytes);
    RunKeepsAlive(initial, w);
    LiteralEmptied(initial, w);
    AdvanceKeepsBound(initial, w);
    var rest := Finish(Run(initial, w).value);
  }

  // A printable way on

  lemma LiteralsArePrintable()
    ensures AllPrintable(OPENING) && AllPrintable(DEPENDS_ON) && AllPrintable(NEXT_TASK)
  {}

  lemma AdvanceKeepsPrintable(s: Rules, c: Code)
    requires Ready(s) && AllPrintable(s.literal) && Advance(s, c).Some?
    ensures AllPrintable(Advance(s, c).value.literal)
  {
    LiteralsArePrintable();
  }

  lemma {:induction false} RunKeepsPrintable(s: Rules, w: Text)
    requires Ready(s) && AllPrintable(s.literal) && Run(s, w).Some?
    ensures AllPrintable(Run(s, w).value.literal)
    decreases |w|
  {
    if w == [] {
    } else {
      AdvanceKeepsPrintable(s, w[0]);
      RunKeepsPrintable(Advance(s, w[0]).value, w[1..]);
    }
  }

  lemma PrintableInQuestion(s: Rules) returns (c: Code)
    requires Alive(s) && s.phase.Question?
    ensures IsPrintable(c) && Advance(s, c).Some?
  {
    var body := FinishQuestion(s.Context(), s.scan);
    if body == [] {
      c := QUOTE;
    } else {
      c := body[0];
    }
  }

  lemma PrintableInParents(s: Rules) returns (c: Code)
    requires Structure(s) && s.phase in {Parents, ParentAfter, ParentRequired}
    ensures IsPrintable(c) && Advance(s, c).Some?
  {
    if s.phase.ParentRequired? {
      var p: nat :| Available(s, p);
      assert Available(s, p);
      c := 0x30 + p;
      assert NamesParent(s, c);
    } else if MayClose(s) {
      c := CLOSE_BRACKET;
    } else {
      c := 0x30;
      assert NamesParent(s, c);
    }
  }

  /** Before the graph is complete, some printable ASCII character is admitted. */
  lemma PrintableWayOn(goal: Text, requirement: bool, maxBytes: nat, w: Text) returns (c: Code)
    requires maxBytes >= 2 && Run(Fresh(goal, requirement, maxBytes), w).Some?
    requires !Run(Fresh(goal, requirement, maxBytes), w).value.phase.Done?
    ensures IsPrintable(c) && Advance(Run(Fresh(goal, requirement, maxBytes), w).value, c).Some?
  {
    var initial := Fresh(goal, requirement, maxBytes);
    RunKeepsAlive(initial, w);
    LiteralsArePrintable();
    RunKeepsPrintable(initial, w);
    var s := Run(initial, w).value;
    match s.phase {
      case Literal => c := s.literal[0];
      case Question => c := PrintableInQuestion(s);
      case TasksAfter => c := if ValidRest(s, []) then CLOSE_BRACKET else COMMA;
      case _ => c := PrintableInParents(s);
    }
  }

  /** Exact lookahead: after an accepted prefix, a character is admitted just when some complete graph has it next. */
  lemma ExactLookahead(goal: Text, requirement: bool, maxBytes: nat, w: Text, c: Code)
    requires maxBytes >= 2 && Run(Fresh(goal, requirement, maxBytes), w).Some?
    ensures Allows(Run(Fresh(goal, requirement, maxBytes), w).value, c)
       <==> exists rest, ts :: Spells(goal, requirement, maxBytes, w + [c] + rest, ts)
  {
    var initial := Fresh(goal, requirement, maxBytes);
    var s := Run(initial, w).value;
    RunConcat(initial, w, [c]);
    RunOne(s, c);
    AllowsIsAdvance(s, c);
    if Allows(s, c) {
      DeadlockFree(goal, requirement, maxBytes, w + [c]);
      var rest :| Accepts(Run(initial, w + [c]).value, rest);
      RunConcat(initial, w + [c], rest);
      var ts := Soundness(goal, requirement, maxBytes, w + [c] + rest);
      assert Spells(goal, requirement, maxBytes, w + [c] + rest, ts);
    }
    if rest, ts :| Spells(goal, requirement, maxBytes, w + [c] + rest, ts) {
      Completeness(goal, requirement, maxBytes, ts);
      RunConcat(initial, w + [c], rest);
    }
  }

  /** The accepted prefixes are exactly the prefixes of spelled graphs under contract. */
  lemma PrefixesAreViable(goal: Text, requirement: bool, maxBytes: nat, w: Text)
    requires maxBytes >= 2
    ensures Run(Fresh(goal, requirement, maxBytes), w).Some?
       <==> exists rest, ts :: Spells(goal, requirement, maxBytes, w + rest, ts)
  {
    var initial := Fresh(goal, requirement, maxBytes);
    if Run(initial, w).Some? {
      DeadlockFree(goal, requirement, maxBytes, w);
      var rest :| Accepts(Run(initial, w).value, rest);
      RunConcat(initial, w, rest);
      var ts := Soundness(goal, requirement, maxBytes, w + rest);
      assert Spells(goal, requirement, maxBytes, w + rest, ts);
    }
    if rest, ts :| Spells(goal, requirement, maxBytes, w + rest, ts) {
      Completeness(goal, requirement, maxBytes, ts);
      RunConcat(initial, w, rest);
    }
  }

  ghost predicate NeverStuck(goal: Text, requirement: bool, maxBytes: nat) {
    forall w :: Run(Fresh(goal, requirement, maxBytes), w).Some? ==>
      CanFinish(Run(Fresh(goal, requirement, maxBytes), w).value)
  }

  lemma StripOne(c: Code)
    ensures Strip([c]) == if IsSpace(c) then [] else [c]
  {
    assert [c] == [] + [c];
    if IsSpace(c) {
      StripAppendSpace([], c);
    } else {
      StripAppendVisible([], c);
    }
  }

  /** With one byte there is a single question text. */
  lemma OneByteQuestion(k: Context, t: Text)
    requires k.maxBytes == 1 && ValidQuestion(k, t)
    ensures t == [QUESTION_MARK] && Strip(t) == [QUESTION_MARK]
  {
    assert |t| <= 1;
    if t != [] {
      assert t == [t[0]];
      StripOne(t[0]);
    }
  }

  /** A state that starts a question under a one-byte bound, with the only text already taken, is stuck. */
  lemma StuckWithOneByte(s: Rules)
    requires Ready(s) && TaskStart(s) && s.questionMaxBytes == 1 && !Distinct(s.Context(), [QUESTION_MARK])
    ensures !CanFinish(s)
  {
    if w :| Accepts(s, w) {
      var t, rest := TaskBackward(s, w);
      OneByteQuestion(s.Context(), DecodeAll(t.spelling));
    }
  }

  lemma MarkIsAsked(s: Rules) returns (after: Rules)
    requires Ready(s) && TaskStart(s) && s.questionMaxBytes == 1 && s.questions == [] && s.goal != [QUESTION_MARK]
    ensures Printable(Task([Raw(QUESTION_MARK)], []))
    ensures Run(s, PrintTask(Task([Raw(QUESTION_MARK)], []))) == Some(after)
    ensures Ready(after) && BetweenTasks(after) && after.questions == [[QUESTION_MARK]] && after.questionMaxBytes == 1
  {
    var t := Task([Raw(QUESTION_MARK)], []);
    assert DecodeAll(t.spelling) == [QUESTION_MARK];
    assert [QUESTION_MARK] == [] + [QUESTION_MARK];
    StripAppendVisible([], QUESTION_MARK);
    BytesAppend([], QUESTION_MARK);
    TaskForward(s, t);
    after := AfterTask(s, t);
  }

  /** A bound of one byte gets stuck for every goal: at the first question if the goal is "?", else at the second. */
  lemma OneByteGetsStuck(goal: Text, requirement: bool) returns (w: Text)
    ensures Run(Fresh(goal, requirement, 1), w).Some? && !CanFinish(Run(Fresh(goal, requirement, 1), w).value)
  {
    var initial := Fresh(goal, requirement, 1);
    var s := FirstTask(goal, requirement, 1);
    RunLiteral(initial);
    if s.goal == [QUESTION_MARK] {
      StuckWithOneByte(s);
      w := OPENING;
    } else {
      var after := MarkIsAsked(s);
      var t := Task([Raw(QUESTION_MARK)], []);
      StepToNext(after);
      StuckWithOneByte(NextTask(after));
      RunVia(s, PrintTask(t), after, [COMMA] + NEXT_TASK);
      RunVia(initial, OPENING, s, PrintTask(t) + ([COMMA] + NEXT_TASK));
      w := OPENING + (PrintTask(t) + ([COMMA] + NEXT_TASK));
    }
  }

  /** For every goal and requirement, the automaton never gets stuck if and only if its bound is at least two bytes. */
  lemma NeverStuckFromTwoBytes(goal: Text, requirement: bool, maxBytes: nat)
    requires 1 <= maxBytes
    ensures NeverStuck(goal, requirement, maxBytes) <==> maxBytes >= 2
  {
    if maxBytes >= 2 {
      forall w | Run(Fresh(goal, requirement, maxBytes), w).Some?
        ensures CanFinish(Run(Fresh(goal, requirement, maxBytes), w).value)
      {
        DeadlockFree(goal, requirement, maxBytes, w);
      }
    } else {
      var w := OneByteGetsStuck(goal, requirement);
    }
  }
}
