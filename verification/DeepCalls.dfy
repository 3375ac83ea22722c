/** A history may hold a call that the model could not propose again: its arguments are nested too deeply for the output
    constraint. */
module DeepCalls {
  import opened Unicode
  import opened Numerals
  import opened JsonText
  import opened JsonValues
  import opened JsonSizes
  import opened JsonReader
  import opened Conversation
  import opened NativeTools
  import opened ToolProposals

  // Arguments of any depth

  const LETTER: Text := [0x61]

  /** Objects inside each other, `n` of them. */
  function Deep(n: nat): (v: Json)
    requires n > 0
  {
    if n == 1 then Object([]) else Object([(LETTER, Deep(n - 1))])
  }

  lemma {:induction false} DeepIsNested(n: nat)
    requires n > 0
    ensures Nesting(Deep(n)) == n
  {
    if n == 1 {
    } else {
      DeepIsNested(n - 1);
      var v := Deep(n);
      assert Child(v, 0) == Deep(n - 1) && Deepest(v, 0) == 0;
      assert Deepest(v, 1) == n - 1;
    }
  }

  predicate IsNarrow(t: Text) {
    forall i :: 0 <= i < |t| ==> t[i] <= 0x7F
  }

  lemma {:induction false} NarrowEscapes(t: Text)
    requires IsNarrow(t)
    ensures IsNarrow(EscapeAll(t))
    decreases |t|
  {
    if t == [] {
    } else {
      NarrowEscapes(t[1..]);
    }
  }

  lemma NarrowDumps(t: Text)
    requires IsNarrow(t)
    ensures IsNarrow(Dumps(t))
  {
    NarrowEscapes(t);
  }

  lemma LetterText()
    ensures Dumps(LETTER) == [QUOTE, 0x61, QUOTE]
  {
    assert LETTER[1..] == [];
    assert EscapeAll(LETTER) == [0x61];
  }

  /** An object with one member. */
  lemma SingleText(m: (Text, Json))
    ensures Canonical(Object([m])) == [0x7B] + MemberText(m) + [0x7D]
  {
    var members := [m];
    var parts := seq(|members|, i requires 0 <= i < |members| => MemberText(members[i]));
    assert parts == [MemberText(m)] && Join(parts) == MemberText(m);
  }

  lemma DeepText(n: nat)
    requires n > 1
    ensures Canonical(Deep(n)) == [0x7B] + ([QUOTE, 0x61, QUOTE] + ([0x3A] + Canonical(Deep(n - 1)))) + [0x7D]
  {
    LetterText();
    SingleText((LETTER, Deep(n - 1)));
  }

  lemma {:induction false} DeepIsShort(n: nat)
    requires n > 0
    ensures IsNarrow(Canonical(Deep(n))) && |Canonical(Deep(n))| == 6 * n - 4
  {
    if n == 1 {
      var parts: seq<Text> := [];
      assert Canonical(Deep(1)) == [0x7B] + Join(parts) + [0x7D];
    } else {
      DeepIsShort(n - 1);
      DeepText(n);
    }
  }

  lemma {:induction false} DeepIsFinite(n: nat)
    requires n > 0
    ensures IsFinite(Deep(n))
  {
    if n == 1 {
    } else {
      DeepIsFinite(n - 1);
    }
  }

  lemma {:induction false} DeepIsProper(printed: Printer, n: nat)
    requires n > 0
    ensures IsProper(printed, Deep(n))
  {
    if n == 1 {
    } else {
      DeepIsProper(printed, n - 1);
    }
  }

  lemma DeepIsArguments(n: nat)
    requires 0 < n <= 600
    ensures IsArguments(Deep(n)) && Size(Deep(n)) == 6 * n - 4
  {
    DeepIsShort(n);
    DeepIsFinite(n);
    NarrowBytes(Canonical(Deep(n)));
  }

  // Sizes

  predicate IsShort(m: (Text, Json), bound: nat) {
    |m.0| <= 32 && Size(m.1) <= bound
  }

  predicate AllShort(members: seq<(Text, Json)>, bound: nat) {
    forall i :: 0 <= i < |members| ==> IsShort(members[i], bound)
  }

  lemma StringIsShort(key: Text, t: Text, bound: nat)
    requires |key| <= 32 && |t| <= 64 && bound >= 386
    ensures IsShort((key, String(t)), bound)
  {
    StringWithin(t);
  }

  lemma OneMoreIsShort(members: seq<(Text, Json)>, m: (Text, Json), bound: nat)
    requires AllShort(members, bound) && IsShort(m, bound)
    ensures AllShort(members + [m], bound)
  {}

  lemma ShortObject(members: seq<(Text, Json)>, bound: nat)
    requires AllShort(members, bound)
    ensures Size(Object(members)) <= 2 + |members| * (195 + bound) + |members|
  {
    ObjectWithin(members, bound);
  }

  lemma ThreeStrings(a: Text, x: Text, b: Text, y: Text, c: Text, z: Text)
    requires |a| <= 32 && |b| <= 32 && |c| <= 32 && |x| <= 64 && |y| <= 64 && |z| <= 64
    ensures Size(Object([(a, String(x)), (b, String(y)), (c, String(z))])) <= 1800
  {
    StringIsShort(a, x, 386);
    StringIsShort(b, y, 386);
    StringIsShort(c, z, 386);
    ShortObject([(a, String(x)), (b, String(y)), (c, String(z))], 386);
  }

  lemma ThreeStringsAndMore(a: Text, x: Text, b: Text, y: Text, c: Text, z: Text, d: Text, v: Json, bound: nat)
    requires |a| <= 32 && |b| <= 32 && |c| <= 32 && |x| <= 64 && |y| <= 64 && |z| <= 64
    requires |d| <= 32 && Size(v) <= bound && bound >= 386
    ensures Size(Object([(a, String(x)), (b, String(y)), (c, String(z)), (d, v)] + [])) <= 800 + 4 * bound
  {
    StringIsShort(a, x, bound);
    StringIsShort(b, y, bound);
    StringIsShort(c, z, bound);
    var members := [(a, String(x)), (b, String(y)), (c, String(z)), (d, v)];
    ShortObject(members, bound);
    assert members + [] == members;
  }

  // A conversation around them

  /** The schema of a function that takes any object. */
  function Parameters(kind: Text): (v: Json) {
    Object([(TYPE, String(kind))])
  }

  lemma SingleSize(key: Text, text: Text)
    requires |key| <= 32 && |text| <= 64
    ensures Size(Object([(key, String(text))])) <= 600
  {
    StringIsShort(key, text, 386);
    ShortObject([(key, String(text))], 386);
  }

  lemma SingleIsNarrow(key: Text, text: Text)
    requires IsNarrow(key) && IsNarrow(text)
    ensures IsNarrow(Canonical(Object([(key, String(text))])))
  {
    SingleText((key, String(text)));
    NarrowDumps(key);
    NarrowDumps(text);
  }

  lemma SingleIsArguments(key: Text, text: Text)
    requires |key| <= 32 && |text| <= 64 && IsNarrow(key) && IsNarrow(text)
    ensures IsArguments(Object([(key, String(text))])) && Size(Object([(key, String(text))])) <= 600
    ensures Get(Object([(key, String(text))]), key) == Some(String(text))
  {
    SingleSize(key, text);
    SingleIsNarrow(key, text);
  }

  lemma ParametersAreGood(kind: Text)
    requires |kind| <= 64 && IsNarrow(kind)
    ensures IsArguments(Parameters(kind)) && Size(Parameters(kind)) <= 600
    ensures Get(Parameters(kind), TYPE) == Some(String(kind))
  {
    SingleIsArguments(TYPE, kind);
  }

  function OnlyTool(word: Text): (t: Tool) {
    FunctionTool(word, Unspecified, word, Parameters(OBJECT))
  }

  /** One question, one offered function, and the output constraint. */
  function Opening(word: Text): (c: Conversation) {
    Conversation(word, [Message(User, word)], [OnlyTool(word)], true, true)
  }

  function DeepCall(word: Text, n: nat): (call: Item)
    requires n > 0
  {
    FunctionCall(word, word, Unspecified, Deep(n))
  }

  lemma IdentifierIsText(word: Text, maximum: nat)
    requires IsIdentifier(word) && maximum >= 64
    ensures IsText(word, maximum, true)
  {
    NarrowBytes(word);
    assert TrimLeft(word) == word && TrimRight(word) == word;
  }

  lemma ToolIsGood(word: Text)
    requires IsIdentifier(word)
    ensures IsTool(OnlyTool(word), Bounds(Qwen4B)) && Size(ToolJson(OnlyTool(word))) <= 3200
  {
    IdentifierIsText(word, Bounds(Qwen4B).description);
    ParametersAreGood(OBJECT);
    ThreeStringsAndMore(TYPE, Ascii("function"), NAME, word, DESCRIPTION, word, PARAMETERS, Parameters(OBJECT), 600);
  }

  lemma MessageSize(word: Text)
    requires |word| <= 64
    ensures ItemSize(Message(User, word)) <= 1800
  {
    ThreeStrings(TYPE, Ascii("message"), ROLE, RoleName(User), TEXT, word);
  }

  lemma ResultSize(word: Text)
    requires |word| <= 64
    ensures ItemSize(ToolResult(word, word)) <= 1800
  {
    ThreeStrings(TYPE, Ascii("tool_result"), CALL_ID, word, OUTPUT, word);
  }

  lemma CallSize(word: Text, n: nat)
    requires |word| <= 64 && 0 < n <= 600
    ensures ItemSize(DeepCall(word, n)) <= 15200
  {
    DeepIsArguments(n);
    ThreeStringsAndMore(TYPE, Ascii("function_call"), CALL_ID, word, NAME, word, ARGUMENTS, Deep(n), 3600);
  }

  lemma SixAreShort(a: (Text, Json), b: (Text, Json), c: (Text, Json), d: (Text, Json), e: (Text, Json),
                    f: (Text, Json), bound: nat)
    requires IsShort(a, bound) && IsShort(b, bound) && IsShort(c, bound)
    requires IsShort(d, bound) && IsShort(e, bound) && IsShort(f, bound)
    ensures AllShort([a, b, c, d] + [e] + [f], bound)
  {}

  lemma VersionSize(digit: Code)
    requires digit <= 0x7F
    ensures Size(Number([digit])) == 1
  {
    OneByte(digit);
  }

  lemma HeadingIsShort(word: Text)
    requires IsIdentifier(word)
    ensures AllShort(Heading(Opening(word)), 3203) && |Heading(Opening(word))| == 6
  {
    ToolIsGood(word);
    ArrayWithin(ToolsJson([OnlyTool(word)]), 3200);
    assert Ascii("1") == [0x31];
    VersionSize(0x31);
    StringIsShort(VISIBILITY, Ascii("private_local"), 3203);
    StringIsShort(INSTRUCTIONS, word, 3203);
    StringIsShort(GENERATION_POLICY, Ascii("greedy_v1"), 3203);
    StringIsShort(OUTPUT_CONSTRAINT, Ascii("qwen_tagged_tool_json_v1"), 3203);
    SixAreShort((VERSION, Number(Ascii("1"))), (VISIBILITY, String(Ascii("private_local"))),
                (INSTRUCTIONS, String(word)), (TOOLS, Array(ToolsJson([OnlyTool(word)]))),
                (GENERATION_POLICY, String(Ascii("greedy_v1"))),
                (OUTPUT_CONSTRAINT, String(Ascii("qwen_tagged_tool_json_v1"))), 3203);
  }

  lemma OpeningSize(word: Text)
    requires IsIdentifier(word)
    ensures EncodedSize(Opening(word)) <= 30000
  {
    var history := (HISTORY, Array(ItemsJson(Opening(word).history)));
    HeadingIsShort(word);
    MessageSize(word);
    ArrayWithin(ItemsJson(Opening(word).history), 1800);
    OneMoreIsShort(Heading(Opening(word)), history, 3203);
    ShortObject(Heading(Opening(word)) + [history], 3203);
  }

  lemma OpeningIsAccepted(word: Text)
    requires IsIdentifier(word)
    ensures Accepted(Opening(word), Qwen4B)
  {
    var c := Opening(word);
    IdentifierIsText(word, Bounds(Qwen4B).instructions);
    ToolIsGood(word);
    OpeningSize(word);
    assert ToolsAreOffered(c.tools, Bounds(Qwen4B));
    assert IsItem(c.tools, Qwen4B, c.history[0]);
    assert PairsOff(c.history);
  }

  lemma DeepCallIsNew(word: Text, n: nat)
    requires IsIdentifier(word) && 0 < n <= 600
    ensures IsNewCall(Opening(word), DeepCall(word, n))
  {
    DeepIsArguments(n);
    assert Offers(Opening(word).tools[0], DeepCall(word, n));
  }

  /** The opening, a call nested `n` deep, and its result. */
  function Dialogue(word: Text, n: nat): (c: Conversation)
    requires n > 0
  {
    Extended(Opening(word), [DeepCall(word, n), ToolResult(word, word)])
  }

  lemma DialogueIsAccepted(word: Text, n: nat)
    requires IsIdentifier(word) && 0 < n <= 600
    ensures Accepted(Dialogue(word, n), Qwen4B)
  {
    OpeningIsAccepted(word);
    DeepCallIsNew(word, n);
    IdentifierIsText(word, Bounds(Qwen4B).message);
    CallContinues(Opening(word), Qwen4B, DeepCall(word, n), ToolResult(word, word));
    OpeningSize(word);
    CallSize(word, n);
    ResultSize(word);
  }

  lemma DeepCallIsShown(word: Text, n: nat)
    requires n > 0
    ensures var c := Dialogue(word, n); c.constrained && |c.history| == 3 && c.history[1] == DeepCall(word, n)
    ensures Shows(Dialogue(word, n), 1, ProposedTurn(DeepCall(word, n), Alias(0)))
  {
    var c, call := Dialogue(word, n), DeepCall(word, n);
    assert c.history[1] == call && Offers(c.tools[0], call);
    assert NamesTool(c.tools, call, Alias(0));
  }

  // What the model writes

  /** Whatever the conversation and however the call is written in tags, nested too deeply it is refused under the
      constraint. */
  lemma TooDeepIsRefused(c: Conversation, p: Profile, i: nat, turn: Turn, text: Text, preface: Text, body: Text,
                         request: Text, read: Reader)
    requires IsWellFormed(c, p) && c.constrained && i < |c.history| && c.history[i].FunctionCall?
    requires Nesting(c.history[i].arguments) > MAX_DEPTH && Shows(c, i, turn) && turn.Proposed?
    requires Strip(text) == preface + (OPEN + (body + CLOSE)) && !Contains(preface, OPEN)
    requires read(body) == Some(CallObject(turn.name, turn.arguments))
    ensures Bounded(c, Decode(c, Output(false, true, text), request, read)) == Incomplete(InvalidOutput)
  {
    assert IsItem(c.tools, p, c.history[i]);
    TaggedCallReadsBack(c, c.history[i], turn.name, text, preface, body, request, read);
  }

  const ANGLE: Code := 0x3C

  /** No tag or marker can begin in such a text. */
  predicate IsClean(t: Text) {
    forall i :: 0 <= i < |t| ==> t[i] != ANGLE
  }

  lemma {:induction false} CleanEscapes(t: Text)
    requires IsClean(t)
    ensures IsClean(EscapeAll(t))
    decreases |t|
  {
    if t == [] {
    } else {
      CleanEscapes(t[1..]);
    }
  }

  lemma CleanMember(m: (Text, Json))
    requires IsClean(m.0) && IsClean(Canonical(m.1))
    ensures IsClean(MemberText(m))
  {
    CleanEscapes(m.0);
  }

  lemma {:induction false} DeepIsClean(n: nat)
    requires n > 0
    ensures IsClean(Canonical(Deep(n)))
  {
    if n == 1 {
      ObjectText([]);
    } else {
      DeepIsClean(n - 1);
      DeepText(n);
    }
  }

  lemma PairText(a: (Text, Json), b: (Text, Json))
    ensures Canonical(Object([a, b])) == [0x7B] + (MemberText(a) + ([0x2C] + MemberText(b))) + [0x7D]
  {
    ObjectText([a, b]);
    MemberTextsFirst(a, [b]);
    MemberTextsFirst(b, []);
    assert [a] + [b] == [a, b] && [b] + [] == [b];
    assert [MemberText(b)] + MemberTexts([]) == [MemberText(b)];
    JoinOne(MemberText(b));
    JoinMore(MemberText(a), [MemberText(b)], []);
  }

  lemma CleanPair(a: (Text, Json), b: (Text, Json))
    requires IsClean(MemberText(a)) && IsClean(MemberText(b))
    ensures IsClean(Canonical(Object([a, b])))
  {
    PairText(a, b);
  }

  lemma CleanFields(a: Text, text: Text, b: Text, v: Json)
    requires IsClean(a) && IsClean(text) && IsClean(b) && IsClean(Canonical(v))
    ensures IsClean(Canonical(Object([(a, String(text)), (b, v)])))
  {
    CleanEscapes(text);
    CleanMember((a, String(text)));
    CleanMember((b, v));
    CleanPair((a, String(text)), (b, v));
  }

  lemma WrittenCallIsClean(alias: Text, args: Json)
    requires IsClean(alias) && IsClean(Canonical(args))
    ensures IsClean(Canonical(CallObject(alias, args)))
  {
    CleanFields(NAME, alias, ARGUMENTS, args);
  }

  /** Between tags there is only the opening and the closing one. */
  lemma AnglesAreTags(body: Text, i: nat)
    requires IsClean(body) && i < |OPEN + (body + CLOSE)| && (OPEN + (body + CLOSE))[i] == ANGLE
    ensures i == 0 || i == |OPEN| + |body|
  {
    assert forall k :: 0 < k < |OPEN| ==> OPEN[k] != ANGLE;
    assert forall k :: 0 < k < |CLOSE| ==> CLOSE[k] != ANGLE;
  }

  lemma NotAtOpening(rest: Text, m: nat)
    requires m < |Markers()|
    ensures !OccursAt(OPEN + rest, Markers()[m], 0)
  {
    var k := if m == 0 then 2 else 1;
    assert OPEN[1] == 0x74 && OPEN[2] == 0x6F && Markers()[m][k] != OPEN[k];
    Mismatch(OPEN + rest, Markers()[m], 0, k);
  }

  lemma NotAtClosing(before: Text, m: nat)
    requires m < |Markers()|
    ensures !OccursAt(before + CLOSE, Markers()[m], |before|)
  {
    var k := if m == 1 then 3 else 1;
    assert CLOSE[1] == 0x2F && CLOSE[3] == 0x6F && Markers()[m][k] != CLOSE[k];
    Mismatch(before + CLOSE, Markers()[m], |before|, k);
  }

  lemma TaggedHasNoMarker(body: Text)
    requires IsClean(body)
    ensures !ContainsAny(OPEN + (body + CLOSE), Markers())
  {
    var t := OPEN + (body + CLOSE);
    forall m, i | 0 <= m < |Markers()| && 0 <= i <= |t| ensures !OccursAt(t, Markers()[m], i) {
      assert Markers()[m][0] == ANGLE;
      if i < |t| && t[i] == ANGLE {
        AnglesAreTags(body, i);
        NotAtOpening(body + CLOSE, m);
        NotAtClosing(OPEN + body, m);
        assert t == (OPEN + body) + CLOSE;
      } else if i < |t| {
        Mismatch(t, Markers()[m], i, 0);
      }
    }
  }

  lemma TaggedIsTrimmed(body: Text)
    ensures Strip(OPEN + (body + CLOSE)) == [] + (OPEN + (body + CLOSE))
  {
    var t := OPEN + (body + CLOSE);
    assert t[0] == 0x3C && t[|t| - 1] == CLOSE[|CLOSE| - 1] == 0x3E;
    assert [] + t == t;
  }

  /** The deep call as the model writes it again. */
  function Rewritten(n: nat): (t: Text)
    requires n > 0
  {
    OPEN + (Canonical(CallObject(Alias(0), Deep(n))) + CLOSE)
  }

  lemma RewrittenCanDecode(word: Text, n: nat, request: Text)
    requires n > 0 && IsRequestId(request) && word != CallId(request)
    ensures CanDecode(Dialogue(word, n), Rewritten(n), [], request)
  {
    DecimalReadsBack(0);
    assert IsClean(Alias(0));
    DeepIsClean(n);
    WrittenCallIsClean(Alias(0), Deep(n));
    TaggedHasNoMarker(Canonical(CallObject(Alias(0), Deep(n))));
  }

  lemma RewrittenDecodes(word: Text, n: nat, request: Text, printed: Printer)
    requires IsIdentifier(word) && 0 < n <= 600 && IsRequestId(request) && word != CallId(request)
    ensures Decode(Dialogue(word, n), Output(false, true, Rewritten(n)), request, Strict(printed))
         == Proposal(Renumbered(DeepCall(word, n), CallId(request)))
  {
    var c, call, body := Dialogue(word, n), DeepCall(word, n), Canonical(CallObject(Alias(0), Deep(n)));
    DeepIsProper(printed, n);
    DeepIsFinite(n);
    WrittenCallIsRead(printed, Alias(0), Deep(n));
    TaggedIsTrimmed(body);
    RewrittenCanDecode(word, n, request);
    DeepCallIsNew(word, n);
    assert Offers(c.tools[0], call);
    TaggedCallDecodes(c, call, Alias(0), Rewritten(n), [], body, request, Strict(printed));
  }

  /** Depth is all there is to it: for every depth there is an accepted conversation under the output constraint whose
      call, written again as it was shown, is decoded to itself, and is then let through up to depth 16 and refused
      beyond. */
  lemma DeepCallIsRefused(word: Text, n: nat, request: Text, printed: Printer)
    returns (c: Conversation, turn: Turn, text: Text)
    requires IsIdentifier(word) && 0 < n <= 600 && IsRequestId(request) && word != CallId(request)
    ensures Accepted(c, Qwen4B) && c.constrained && |c.history| > 1
    ensures c.history[1].FunctionCall? && Nesting(c.history[1].arguments) == n
    ensures Shows(c, 1, turn) && turn.Proposed?
    ensures text == OPEN + (Canonical(CallObject(turn.name, turn.arguments)) + CLOSE)
    ensures var r, again := Decode(c, Output(false, true, text), request, Strict(printed)),
                            Proposal(Renumbered(c.history[1], CallId(request)));
      r == again && Bounded(c, r) == if n <= MAX_DEPTH then again else Incomplete(InvalidOutput)
  {
    c, turn, text := Dialogue(word, n), ProposedTurn(DeepCall(word, n), Alias(0)), Rewritten(n);
    DialogueIsAccepted(word, n);
    DeepIsNested(n);
    DeepCallIsShown(word, n);
    RewrittenDecodes(word, n, request, printed);
  }
}
