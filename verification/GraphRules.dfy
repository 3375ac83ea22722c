/** The character automaton that admits one compact JSON task graph and nothing else. */
module GraphRules {
  import opened Unicode
  import opened QuestionScanner

  datatype Phase = Literal | Question | Parents | ParentRequired | ParentAfter | TasksAfter | Done

  datatype Rules = Rules(
    questionMaxBytes: nat,
    goal: Text,
    requirement: bool,
    questions: seq<Text>,
    parents: seq<nat>,
    hasDependency: bool,
    scan: Scan,
    phase: Phase,
    literal: Text,
    after: Phase
  ) {
    function Context(): (k: Context) {
      QuestionScanner.Context(questionMaxBytes, goal, questions)
    }

    function Expect(text: Text, next: Phase): (s: Rules) {
      this.(phase := Literal, literal := text, after := next)
    }
  }

  const OPENING: Text := Ascii("{\"version\":3,\"tasks\":[{\"question\":\"")
  const DEPENDS_ON: Text := Ascii(",\"depends_on\":[")
  const NEXT_TASK: Text := Ascii("{\"question\":\"")
  const COMMA: Code := 0x2C
  const CLOSE_BRACKET: Code := 0x5D
  const CLOSE_BRACE: Code := 0x7D

  /** What every state of a run satisfies and a step needs. */
  predicate Ready(s: Rules) {
    && (s.phase.Literal? ==> s.literal != [] && !s.after.Literal?)
    && WellFormed(s.scan)
  }

  /** The automaton before any character, for any bound. */
  function Fresh(goal: Text, requirement: bool, questionMaxBytes: nat): (s: Rules)
    ensures Ready(s)
  {
    Rules(questionMaxBytes, Strip(goal), requirement, [], [], false, EMPTY, Literal, OPENING, Question)
  }

  /** A dependency the task may still name: an earlier task it has not named yet. */
  predicate Available(s: Rules, i: nat) {
    i < |s.questions| - 1 && i !in s.parents
  }

  predicate SomeAvailable(s: Rules) {
    exists i: nat :: i < |s.questions| && Available(s, i)
  }

  predicate NamesParent(s: Rules, c: Code) {
    0x30 <= c <= 0x39 && Available(s, c - 0x30)
  }

  function QuestionCharacter(s: Rules, c: Code): (r: Option<Rules>)
    requires Ready(s)
  {
    match ScanCharacter(s.Context(), s.scan, c)
    case Rejected => None
    case Continue(q) => Some(s.(scan := q))
    case Closed => Some(s.(questions := s.questions + [Strip(s.scan.text)], parents := []).Expect(DEPENDS_ON, Parents))
  }

  /** The three phases inside a dependency list. */
  function ParentCharacter(s: Rules, c: Code): (r: Option<Rules>) {
    if s.phase != ParentAfter && NamesParent(s, c) then
      Some(s.(parents := s.parents + [c - 0x30], hasDependency := true, phase := ParentAfter))
    else if s.phase == ParentAfter && c == COMMA && SomeAvailable(s) then Some(s.(phase := ParentRequired))
    else if s.phase != ParentRequired && c == CLOSE_BRACKET then
      if s.requirement && |s.questions| == 4 && !s.hasDependency then None
      else Some(s.Expect([CLOSE_BRACE], TasksAfter))
    else None
  }

  function Advance(s: Rules, c: Code): (r: Option<Rules>)
    requires Ready(s)
    ensures r.Some? ==> Ready(r.value)
  {
    match s.phase
    case Literal =>
      if c != s.literal[0] then None
      else if |s.literal| == 1 then Some(s.(literal := [], phase := s.after))
      else Some(s.(literal := s.literal[1..]))
    case Question => QuestionCharacter(s, c)
    case TasksAfter =>
      if c == COMMA && |s.questions| < 4 then Some(s.(scan := EMPTY).Expect(NEXT_TASK, Question))
      else if c == CLOSE_BRACKET && (!s.requirement || (|s.questions| >= 2 && s.hasDependency)) then
        Some(s.Expect([CLOSE_BRACE], Done))
      else None
    case Done => None
    case _ => ParentCharacter(s, c)
  }

  /** The cheap form of `Advance`, asked about every candidate character. */
  predicate Allows(s: Rules, c: Code)
    requires Ready(s)
  {
    if s.phase.Literal? then c == s.literal[0]
    else if !s.phase.Question? || !s.scan.escape.NoEscape? || s.scan.high.Some? then Advance(s, c).Some?
    else if c == QUOTE then Complete(s.Context(), s.scan)
    else if c == BACKSLASH then UnicodePrefixCanFinish(s.Context(), s.scan, [])
    else if c < 0x20 || IsSurrogate(c) then false
    else if s.scan.textBytes <= s.questionMaxBytes - 6 then true
    else
      var size := s.scan.textBytes + Width(c);
      size <= s.questionMaxBytes && TextCanFinish(s.Context(), s.scan.text + [c], size)
  }

  /** The cheap form answers exactly what the transition does, in every state. */
  lemma AllowsIsAdvance(s: Rules, c: Code)
    requires Ready(s)
    ensures Allows(s, c) <==> Advance(s, c).Some?
  {
  }

  // Runs

  function Run(s: Rules, w: Text): (r: Option<Rules>)
    requires Ready(s)
    ensures r.Some? ==> Ready(r.value)
    decreases |w|
  {
    if w == [] then Some(s)
    else
      match Advance(s, w[0])
      case Some(next) => Run(next, w[1..])
      case None => None
  }

  predicate Accepts(s: Rules, w: Text)
    requires Ready(s)
  {
    Run(s, w).Some? && Run(s, w).value.phase.Done?
  }

  lemma {:induction false} RunConcat(s: Rules, a: Text, b: Text)
    requires Ready(s)
    ensures Run(s, a + b) == match Run(s, a) case Some(t) => Run(t, b) case None => None
    decreases |a|
  {
    if a == [] {
      assert a + b == b;
    } else {
      assert (a + b)[1..] == a[1..] + b;
      match Advance(s, a[0])
      case Some(next) => RunConcat(next, a[1..], b);
      case None =>
    }
  }

  lemma RunVia(s: Rules, a: Text, mid: Rules, b: Text)
    requires Ready(s) && Ready(mid) && Run(s, a) == Some(mid)
    ensures Run(s, a + b) == Run(mid, b)
  {
    RunConcat(s, a, b);
  }

  lemma RunViaTwo(s: Rules, a: Text, one: Rules, b: Text, two: Rules, c: Text)
    requires Ready(s) && Ready(one) && Ready(two) && Run(s, a) == Some(one) && Run(one, b) == Some(two)
    ensures Run(s, a + (b + c)) == Run(two, c)
  {
    RunVia(one, b, two, c);
    RunVia(s, a, one, b + c);
  }

  lemma RunOne(s: Rules, c: Code)
    requires Ready(s)
    ensures Run(s, [c]) == Advance(s, c)
  {
    assert [c][1..] == [];
  }

  lemma {:induction false} RunLiteral(s: Rules)
    requires Ready(s) && s.phase.Literal?
    ensures Run(s, s.literal) == Some(s.(literal := [], phase := s.after))
    decreases |s.literal|
  {
    var next := Advance(s, s.literal[0]).value;
    if |s.literal| == 1 {
      assert s.literal[1..] == [];
    } else {
      RunLiteral(next);
    }
  }

  /** One character and the literal it announces. */
  lemma RunThenLiteral(s: Rules, c: Code, next: Rules)
    requires Ready(s) && Advance(s, c) == Some(next) && next.phase.Literal?
    ensures Run(s, [c] + next.literal) == Some(next.(literal := [], phase := next.after))
  {
    RunOne(s, c);
    RunLiteral(next);
    RunConcat(s, [c], next.literal);
  }

  /** A run that leaves a literal has read it whole. */
  lemma {:induction false} LiteralIsRead(s: Rules, w: Text) returns (rest: Text)
    requires Ready(s) && s.phase.Literal? && Accepts(s, w)
    ensures w == s.literal + rest
    ensures Ready(s.(literal := [], phase := s.after)) && Accepts(s.(literal := [], phase := s.after), rest)
    decreases |w|
  {
    var next := Advance(s, w[0]).value;
    if |s.literal| == 1 {
      rest := w[1..];
      assert s.literal == [w[0]];
    } else {
      rest := LiteralIsRead(next, w[1..]);
      assert s.literal == [w[0]] + next.literal;
    }
  }

  /** Reading the characters of a question only moves the scan. */
  lemma {:induction false} RunScan(s: Rules, body: Text)
    requires Ready(s) && s.phase.Question? && ScanAll(s.Context(), s.scan, body).Continue?
    ensures Run(s, body) == Some(s.(scan := ScanAll(s.Context(), s.scan, body).scan))
    decreases |body|
  {
    if body == [] {
    } else {
      RunScan(s.(scan := ScanCharacter(s.Context(), s.scan, body[0]).scan), body[1..]);
    }
  }

  /** `body` brings the question to a point where a quote closes it and `rest` goes on to the end. */
  ghost predicate ClosesAfter(s: Rules, body: Text, rest: Text)
    requires Ready(s) && s.phase.Question?
  {
    var r := ScanAll(s.Context(), s.scan, body);
    && r.Continue?
    && Complete(s.Context(), r.scan)
    && var t := QuestionCharacter(s.(scan := r.scan), QUOTE);
       t.Some? && Ready(t.value) && Accepts(t.value, rest)
  }

  lemma ClosesOneEarlier(s: Rules, c: Code, body: Text, rest: Text)
    requires Ready(s) && s.phase.Question? && ScanCharacter(s.Context(), s.scan, c).Continue?
    requires ClosesAfter(s.(scan := ScanCharacter(s.Context(), s.scan, c).scan), body, rest)
    ensures ClosesAfter(s, [c] + body, rest)
  {
    assert ([c] + body)[1..] == body;
  }

  /** The first character of an accepting run in a question either closes it or moves the scan. */
  lemma QuestionStep(s: Rules, w: Text)
    requires Ready(s) && s.phase.Question? && Accepts(s, w)
    ensures w != [] && !ScanCharacter(s.Context(), s.scan, w[0]).Rejected?
    ensures ScanCharacter(s.Context(), s.scan, w[0]).Closed? ==> w[0] == QUOTE && ClosesAfter(s, [], w[1..])
    ensures ScanCharacter(s.Context(), s.scan, w[0]).Continue? ==>
              var next := s.(scan := ScanCharacter(s.Context(), s.scan, w[0]).scan);
              Ready(next) && Accepts(next, w[1..])
  {}

  lemma Lengthen(w: Text, body: Text, rest: Text)
    requires w != [] && w[1..] == body + [QUOTE] + rest
    ensures w == [w[0]] + body + [QUOTE] + rest
  {
    assert w == [w[0]] + w[1..];
  }

  /** An accepting run in a question closes it at some point. */
  lemma {:induction false} QuestionCloses(s: Rules, w: Text) returns (body: Text, rest: Text)
    requires Ready(s) && s.phase.Question? && Accepts(s, w)
    ensures w == body + [QUOTE] + rest && ClosesAfter(s, body, rest)
    decreases |w|
  {
    QuestionStep(s, w);
    var step := ScanCharacter(s.Context(), s.scan, w[0]);
    if step.Closed? {
      body, rest := [], w[1..];
      assert w == [] + [QUOTE] + rest;
    } else {
      var later;
      later, rest := QuestionCloses(s.(scan := step.scan), w[1..]);
      ClosesOneEarlier(s, w[0], later, rest);
      body := [w[0]] + later;
      Lengthen(w, later, rest);
    }
  }
}
