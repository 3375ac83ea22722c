/** Turning what the model wrote into an answer or a proposed call of an offered tool. Nothing is repaired: anything
    but one complete well-formed call, or plain text, is reported as incomplete. */
module ToolProposals {
  import opened Unicode
  import opened Tables
  import opened JsonValues
  import opened JsonReader
  import opened Conversation
  import opened NativeTools

  datatype Reason = WireTruncated | TokenLimit | InvalidOutput

  datatype Outcome = Answer(text: Text) | Proposal(call: Item) | Incomplete(reason: Reason)

  datatype Output = Output(truncated: bool, ended: bool, text: Text)

  /** A JSON reader; None where it refuses. */
  type Reader = Text -> Option<Json>

  /** The reader in use. Most results hold for any other as well. */
  function Strict(printed: Printer): (read: Reader) {
    t => Loads(printed, t)
  }

  // Text

  predicate OccursAt(t: Text, part: Text, i: nat) {
    i + |part| <= |t| && t[i..i + |part|] == part
  }

  predicate Contains(t: Text, part: Text) {
    exists i :: 0 <= i <= |t| && OccursAt(t, part, i)
  }

  function FindFrom(t: Text, part: Text, start: nat): (r: Option<nat>)
    requires start <= |t| && forall i :: 0 <= i < start ==> !OccursAt(t, part, i)
    ensures r.Some? <==> Contains(t, part)
    ensures r.Some? ==> OccursAt(t, part, r.value) && forall i :: 0 <= i < r.value ==> !OccursAt(t, part, i)
    decreases |t| - start
  {
    if OccursAt(t, part, start) then Some(start) else if start == |t| then None else FindFrom(t, part, start + 1)
  }

  /** Where `part` first occurs. */
  function Find(t: Text, part: Text): (r: Option<nat>)
    ensures r.Some? <==> Contains(t, part)
    ensures r.Some? ==> OccursAt(t, part, r.value) && forall i :: 0 <= i < r.value ==> !OccursAt(t, part, i)
  {
    FindFrom(t, part, 0)
  }

  predicate ContainsAny(t: Text, parts: seq<Text>) {
    exists i :: 0 <= i < |parts| && Contains(t, parts[i])
  }

  // The tagged form

  const OPEN: Text := Ascii("<tool_call>")
  const CLOSE: Text := Ascii("</tool_call>")
  const OPEN_PART: Text := Ascii("<tool_call")
  const CLOSE_PART: Text := Ascii("</tool_call")

  function Markers(): (r: seq<Text>) {
    [Ascii("<think"), Ascii("</think"), Ascii("<|im_"), Ascii("<|endoftext|>")]
  }

  function PrefaceMarkers(): (r: seq<Text>) {
    [OPEN_PART, CLOSE_PART, Ascii("```"), Ascii("~~~")]
  }

  predicate IsPreface(t: Text) {
    t == [] || (t[|t| - 1] == 0x0A && IsText(t, PAYLOAD_BYTES, true) && !ContainsAny(t, PrefaceMarkers()))
  }

  /** The text between the first opening tag and a closing tag at the very end. */
  function TaggedBody(trimmed: Text): (r: Option<Text>) {
    match Find(trimmed, OPEN)
    case None => None
    case Some(i) =>
      var rest := trimmed[i + |OPEN|..];
      if EndsWith(rest, CLOSE) && IsPreface(trimmed[..i]) then Some(rest[..|rest| - |CLOSE|]) else None
  }

  // Resolving a call

  predicate IsCallObject(v: Json): (b: bool)
    ensures b ==> Get(v, NAME).Some? && Get(v, ARGUMENTS).Some?
  {
    var keys := [NAME, ARGUMENTS];
    assert keys[0] == NAME && keys[1] == ARGUMENTS;
    HasFields(v, keys)
  }

  /** The positions whose alias is `name`. */
  function Selected(name: Json, n: nat): (r: seq<nat>)
    ensures forall i :: 0 <= i < |r| ==> r[i] < n && name == String(Alias(r[i]))
  {
    if n == 0 then [] else Selected(name, n - 1) + (if name == String(Alias(n - 1)) then [n - 1] else [])
  }

  lemma AliasesDiffer(i: nat, j: nat)
    requires i != j
    ensures Alias(i) != Alias(j)
  {
    if Alias(i) == Alias(j) {
      AliasIsInjective(i, j);
    }
  }

  lemma {:induction false} SelectedOnlyAlias(index: nat, n: nat)
    ensures Selected(String(Alias(index)), n) == if index < n then [index] else []
  {
    if n == 0 {
    } else {
      SelectedOnlyAlias(index, n - 1);
      if index != n - 1 {
        AliasesDiffer(index, n - 1);
      }
    }
  }

  const CALL_PREFIX: Text := Ascii("vp-")

  predicate IsRequestId(t: Text) {
    |t| == 32 && forall i :: 0 <= i < |t| ==> 0x30 <= t[i] <= 0x39 || 0x61 <= t[i] <= 0x66
  }

  function CallId(request: Text): (t: Text) {
    CALL_PREFIX + request
  }

  /** A decoded call always says its namespace, as null if need be. */
  function Explicit(ns: Namespace): (r: Namespace)
    ensures GivenName(r) == GivenName(ns)
  {
    if ns.Named? then ns else Unnamed
  }

  /** The call of `tool` with these arguments, or None where a custom tool is not given one string. */
  function CallOf(tool: Tool, id: Text, args: Json): (r: Option<Item>)
    ensures r.Some? ==> IsCall(r.value) && Offers(tool, r.value) && r.value.callId == id
  {
    match tool
    case FunctionTool(name, namespace, _, _) => Some(FunctionCall(id, name, Explicit(namespace), args))
    case CustomTool(name, namespace, _) =>
      if !HasFields(args, [INPUT]) then None
      else
        match Get(args, INPUT)
        case Some(String(text)) => Some(CustomCall(id, name, Explicit(namespace), text))
        case _ => None
  }

  predicate IsUsed(h: seq<Item>, id: Text) {
    exists j :: 0 <= j < |h| && IsCall(h[j]) && h[j].callId == id
  }

  function Resolve(c: Conversation, parsed: Json, request: Text): (r: Outcome)
    ensures !r.Answer? && (r.Proposal? ==> IsCall(r.call))
  {
    if !IsCallObject(parsed) then Incomplete(InvalidOutput)
    else
      var selected := Selected(Get(parsed, NAME).value, |c.tools|);
      if |selected| != 1 then Incomplete(InvalidOutput)
      else
        match CallOf(c.tools[selected[0]], CallId(request), Get(parsed, ARGUMENTS).value)
        case None => Incomplete(InvalidOutput)
        case Some(call) =>
          if IsProposal(c.tools, call) && !IsUsed(c.history, call.callId) then Proposal(call)
          else Incomplete(InvalidOutput)
  }

  /** A bare object is a call only when it is the whole output and has the exact shape. */
  function BareCall(c: Conversation, trimmed: Text, read: Reader): (r: Option<Json>) {
    if c.tools == [] then None
    else
      match read(trimmed)
      case None => None
      case Some(v) => if IsCallObject(v) && Get(v, NAME).value.String? then Some(v) else None
  }

  function Decode(c: Conversation, output: Output, request: Text, read: Reader): (r: Outcome)
    ensures r.Proposal? ==> IsCall(r.call)
  {
    if output.truncated then Incomplete(WireTruncated)
    else if !output.ended then Incomplete(TokenLimit)
    else if !IsRequestId(request) || ContainsAny(output.text, Markers()) then Incomplete(InvalidOutput)
    else
      var trimmed := Strip(output.text);
      if !Contains(output.text, OPEN_PART) && !Contains(output.text, CLOSE_PART) then
        match BareCall(c, trimmed, read)
        case Some(parsed) => Resolve(c, parsed, request)
        case None => if IsText(output.text, PAYLOAD_BYTES, true) then Answer(output.text) else Incomplete(InvalidOutput)
      else
        match TaggedBody(trimmed)
        case None => Incomplete(InvalidOutput)
        case Some(body) =>
          match read(body)
          case None => Incomplete(InvalidOutput)
          case Some(parsed) => Resolve(c, parsed, request)
  }

  /** The decoded output once more against the depth bound, where the output was constrained. */
  function Bounded(c: Conversation, r: Outcome): (b: Outcome) {
    if c.constrained && r.Proposal? && r.call.FunctionCall? && Nesting(r.call.arguments) > MAX_DEPTH
    then Incomplete(InvalidOutput) else r
  }

  method DecodeOutput(c: Conversation, output: Output, request: Text, read: Reader) returns (r: Outcome)
    ensures r == Bounded(c, Decode(c, output, request, read))
  {
    r := Decode(c, output, request, read);
    if c.constrained && r.Proposal? && r.call.FunctionCall? {
      var shallow := DepthWithin(r.call.arguments);
      if !shallow {
        r := Incomplete(InvalidOutput);
      }
    }
  }

  // What a decoded output may be

  /** A good call of an offered tool under an id the conversation has not used. */
  ghost predicate IsNewCall(c: Conversation, call: Item) {
    IsCall(call) && IsProposal(c.tools, call) && !Called(c.history, |c.history|, call.callId)
  }

  lemma DecodedCallIsProposal(c: Conversation, output: Output, request: Text, read: Reader)
    requires Decode(c, output, request, read).Proposal?
    ensures IsNewCall(c, Decode(c, output, request, read).call)
    ensures Decode(c, output, request, read).call.callId == CallId(request)
  {}

  lemma DecodedAnswerIsText(c: Conversation, output: Output, request: Text, read: Reader)
    requires Decode(c, output, request, read).Answer?
    ensures Decode(c, output, request, read) == Answer(output.text) && IsText(output.text, PAYLOAD_BYTES, true)
  {}

  /** The object says to call the tool at position `t`, and the call is of that tool. */
  predicate IsCallTo(c: Conversation, parsed: Json, call: Item, t: nat) {
    && t < |c.tools|
    && IsCall(call)
    && IsCallObject(parsed)
    && Get(parsed, NAME) == Some(String(Alias(t)))
    && Offers(c.tools[t], call)
  }

  lemma ResolvedIsCallTo(c: Conversation, parsed: Json, request: Text) returns (t: nat)
    requires Resolve(c, parsed, request).Proposal?
    ensures IsCallTo(c, parsed, Resolve(c, parsed, request).call, t)
  {
    t := Selected(Get(parsed, NAME).value, |c.tools|)[0];
  }

  lemma TaggedBodySplits(trimmed: Text) returns (preface: Text)
    requires TaggedBody(trimmed).Some?
    ensures IsPreface(preface) && trimmed == preface + (OPEN + (TaggedBody(trimmed).value + CLOSE))
  {
    var i := Find(trimmed, OPEN).value;
    preface := trimmed[..i];
    var rest := trimmed[i + |OPEN|..];
    assert rest == rest[..|rest| - |CLOSE|] + CLOSE;
    assert trimmed == preface + (trimmed[i..i + |OPEN|] + rest);
  }

  /** Nothing is extracted or repaired: a proposal is one complete object, either the whole output or all of it between
      the first opening tag and a closing tag at the end, and it calls the tool the object names. */
  lemma ProposalIsOneObject(c: Conversation, output: Output, request: Text, read: Reader)
    returns (preface: Text, body: Text, t: nat)
    requires Decode(c, output, request, read).Proposal?
    ensures !output.truncated && output.ended && IsRequestId(request) && !ContainsAny(output.text, Markers())
    ensures || Strip(output.text) == body
            || (IsPreface(preface) && Strip(output.text) == preface + (OPEN + (body + CLOSE)))
    ensures read(body).Some? && IsCallTo(c, read(body).value, Decode(c, output, request, read).call, t)
  {
    preface, body := [], Strip(output.text);
    if Contains(output.text, OPEN_PART) || Contains(output.text, CLOSE_PART) {
      body := TaggedBody(Strip(output.text)).value;
      preface := TaggedBodySplits(Strip(output.text));
    }
    t := ResolvedIsCallTo(c, read(body).value, request);
  }

  // A shown call reads back

  function CallObject(alias: Text, args: Json): (v: Json) {
    Object([(NAME, String(alias)), (ARGUMENTS, args)])
  }

  lemma CallObjectFields(alias: Text, args: Json)
    ensures var v := CallObject(alias, args);
      IsCallObject(v) && Get(v, NAME) == Some(String(alias)) && Get(v, ARGUMENTS) == Some(args)
  {
    assert |NAME| == 4 && |ARGUMENTS| == 9;
    assert Lookup([(ARGUMENTS, args)], ARGUMENTS) == Some(args);
  }

  /** The same call of the same tool under another id. */
  function Renumbered(call: Item, id: Text): (r: Item)
    requires IsCall(call)
  {
    if call.FunctionCall? then FunctionCall(id, call.name, Explicit(call.namespace), call.arguments)
    else CustomCall(id, call.name, Explicit(call.namespace), call.input)
  }

  lemma EmittedArgumentsReadBack(tool: Tool, call: Item, id: Text)
    requires IsCall(call) && Offers(tool, call)
    ensures CallOf(tool, id, EmittedArguments(call)) == Some(Renumbered(call, id))
  {
    if call.CustomCall? {
      var v := EmittedArguments(call);
      assert Lookup(v.members, INPUT) == Some(String(call.input));
    }
  }

  lemma CallIdIsIdentifier(request: Text)
    requires IsRequestId(request)
    ensures IsIdentifier(CallId(request))
  {
    var id := CallId(request);
    assert CALL_PREFIX == [0x76, 0x70, 0x2D];
    forall i | 0 <= i < |id| ensures IsIdentifierCode(id[i]) {
      assert id[i] == if i < 3 then CALL_PREFIX[i] else request[i - 3];
    }
  }

  /** Under its alias and with its emitted arguments, a good call resolves to itself with a new id. */
  lemma EmittedCallResolves(c: Conversation, t: nat, call: Item, request: Text)
    requires IsRequestId(request) && t < |c.tools|
    requires IsCall(call) && IsProposal(c.tools, call) && Offers(c.tools[t], call)
    ensures Resolve(c, CallObject(Alias(t), EmittedArguments(call)), request)
         == if IsUsed(c.history, CallId(request)) then Incomplete(InvalidOutput)
            else Proposal(Renumbered(call, CallId(request)))
  {
    CallObjectFields(Alias(t), EmittedArguments(call));
    SelectedOnlyAlias(t, |c.tools|);
    EmittedArgumentsReadBack(c.tools[t], call, CallId(request));
    CallIdIsIdentifier(request);
    var again := Renumbered(call, CallId(request));
    assert Offers(c.tools[t], again);
  }

  lemma Mismatch(t: Text, part: Text, i: nat, k: nat)
    requires k < |part| && i + k < |t| && t[i + k] != part[k]
    ensures !OccursAt(t, part, i)
  {
    if i + |part| <= |t| {
      assert t[i..i + |part|][k] == t[i + k];
    }
  }

  lemma FirstOccurrence(preface: Text, tag: Text, rest: Text)
    requires tag != [] && (forall k :: 0 < k < |tag| ==> tag[k] != tag[0]) && !Contains(preface, tag)
    ensures Find(preface + (tag + rest), tag) == Some(|preface|)
  {
    var t := preface + (tag + rest);
    assert OccursAt(t, tag, |preface|);
    forall i | 0 <= i < |preface| ensures !OccursAt(t, tag, i) {
      if i + |tag| <= |preface| {
        assert t[i..i + |tag|] == preface[i..i + |tag|];
        assert !OccursAt(preface, tag, i);
      } else {
        Mismatch(t, tag, i, |preface| - i);
      }
    }
  }

  lemma OpenStartsOnce()
    ensures |OPEN| == 11 && forall k :: 0 < k < |OPEN| ==> OPEN[k] != OPEN[0]
    ensures OPEN[..|OPEN_PART|] == OPEN_PART
  {}

  lemma TaggedBodyIsFound(preface: Text, body: Text)
    requires !Contains(preface, OPEN)
    ensures TaggedBody(preface + (OPEN + (body + CLOSE))) == if IsPreface(preface) then Some(body) else None
  {
    var trimmed, rest := preface + (OPEN + (body + CLOSE)), body + CLOSE;
    OpenStartsOnce();
    FirstOccurrence(preface, OPEN, rest);
    assert trimmed[|preface| + |OPEN|..] == rest && trimmed[..|preface|] == preface;
    assert rest[|rest| - |CLOSE|..] == CLOSE && rest[..|rest| - |CLOSE|] == body;
  }

  lemma InfixIsContained(t: Text, a: Text, part: Text, b: Text)
    requires t == a + part + b
    ensures Contains(t, part)
  {
    assert OccursAt(t, part, |a|);
  }

  lemma TaggedTextShowsIt(text: Text, preface: Text, rest: Text)
    requires Strip(text) == preface + (OPEN + rest)
    ensures Contains(text, OPEN_PART)
  {
    OpenStartsOnce();
    var before, after := StripSplits(text);
    var tail := OPEN[|OPEN_PART|..];
    assert OPEN == OPEN_PART + tail;
    assert text == (before + preface) + OPEN_PART + (tail + rest + after);
    InfixIsContained(text, before + preface, OPEN_PART, tail + rest + after);
  }

  /** What a caller can check before asking: a good call is decoded if and only if all of this holds. */
  ghost predicate CanDecode(c: Conversation, text: Text, preface: Text, request: Text) {
    && IsRequestId(request)
    && !ContainsAny(text, Markers())
    && IsPreface(preface)
    && !IsUsed(c.history, CallId(request))
  }

  predicate IsShallow(c: Conversation, call: Item) {
    c.constrained && call.FunctionCall? ==> Nesting(call.arguments) <= MAX_DEPTH
  }

  /** And it comes back if and only if the depth allows it too. */
  ghost predicate CanReadBack(c: Conversation, text: Text, preface: Text, request: Text, call: Item) {
    CanDecode(c, text, preface, request) && IsShallow(c, call)
  }

  lemma TaggedCallDecodes(c: Conversation, call: Item, alias: Text, text: Text, preface: Text, body: Text,
                          request: Text, read: Reader)
    requires NamesTool(c.tools, call, alias) && IsProposal(c.tools, call)
    requires Strip(text) == preface + (OPEN + (body + CLOSE)) && !Contains(preface, OPEN)
    requires read(body) == Some(CallObject(alias, EmittedArguments(call)))
    ensures Decode(c, Output(false, true, text), request, read)
         == if CanDecode(c, text, preface, request) then Proposal(Renumbered(call, CallId(request)))
            else Incomplete(InvalidOutput)
  {
    var t :| 0 <= t < |c.tools| && Offers(c.tools[t], call) && alias == Alias(t);
    TaggedTextShowsIt(text, preface, body + CLOSE);
    TaggedBodyIsFound(preface, body);
    if IsRequestId(request) {
      EmittedCallResolves(c, t, call, request);
    }
  }

  /** A good call written in tags, under the alias of its tool, decodes to itself with a new id. */
  lemma TaggedCallReadsBack(c: Conversation, call: Item, alias: Text, text: Text, preface: Text, body: Text,
                            request: Text, read: Reader)
    requires NamesTool(c.tools, call, alias) && IsProposal(c.tools, call)
    requires Strip(text) == preface + (OPEN + (body + CLOSE)) && !Contains(preface, OPEN)
    requires read(body) == Some(CallObject(alias, EmittedArguments(call)))
    ensures Bounded(c, Decode(c, Output(false, true, text), request, read))
         == if CanReadBack(c, text, preface, request, call) then Proposal(Renumbered(call, CallId(request)))
            else Incomplete(InvalidOutput)
  {
    TaggedCallDecodes(c, call, alias, text, preface, body, request, read);
  }

  /** The same for the bare object, where the text holds no tag. */
  lemma BareCallReadsBack(c: Conversation, call: Item, alias: Text, text: Text, request: Text, read: Reader)
    requires NamesTool(c.tools, call, alias) && IsProposal(c.tools, call)
    requires !Contains(text, OPEN_PART) && !Contains(text, CLOSE_PART)
    requires read(Strip(text)) == Some(CallObject(alias, EmittedArguments(call)))
    ensures Bounded(c, Decode(c, Output(false, true, text), request, read))
         == if CanReadBack(c, text, [], request, call) then Proposal(Renumbered(call, CallId(request)))
            else Incomplete(InvalidOutput)
  {
    var t :| 0 <= t < |c.tools| && Offers(c.tools[t], call) && alias == Alias(t);
    CallObjectFields(alias, EmittedArguments(call));
    if IsRequestId(request) {
      EmittedCallResolves(c, t, call, request);
    }
  }

  /** The arguments of the call, as far as they are not text, are a value that Python can hold. */
  predicate HasProperArguments(printed: Printer, call: Item) {
    call.FunctionCall? ==> IsProper(printed, call.arguments)
  }

  lemma EmittedIsPlain(printed: Printer, tools: seq<Tool>, call: Item)
    requires IsCall(call) && IsProposal(tools, call) && HasProperArguments(printed, call)
    ensures IsPlain(printed, EmittedArguments(call))
  {
    if call.CustomCall? {
      assert KeysDiffer([(INPUT, String(call.input))]);
    }
  }

  lemma WrittenCallIsRead(printed: Printer, alias: Text, args: Json)
    requires IsPlain(printed, args)
    ensures Strict(printed)(Canonical(CallObject(alias, args))) == Some(CallObject(alias, args))
  {
    assert |NAME| == 4 && |ARGUMENTS| == 9;
    LoadsInvertsCanonical(printed, CallObject(alias, args));
  }

  /** The round trip: a call of an accepted history, written again in tags with the alias and arguments it was shown
      with, decodes to the same call of the same tool with the same arguments and a new id. */
  lemma ShownCallReadsBack(c: Conversation, p: Profile, i: nat, turn: Turn, text: Text, preface: Text, request: Text,
                           printed: Printer)
    requires IsWellFormed(c, p) && i < |c.history| && IsCall(c.history[i]) && Shows(c, i, turn) && turn.Proposed?
    requires HasProperArguments(printed, c.history[i]) && !Contains(preface, OPEN)
    requires Strip(text) == preface + (OPEN + (Canonical(CallObject(turn.name, turn.arguments)) + CLOSE))
    ensures Bounded(c, Decode(c, Output(false, true, text), request, Strict(printed)))
         == if CanReadBack(c, text, preface, request, c.history[i])
            then Proposal(Renumbered(c.history[i], CallId(request))) else Incomplete(InvalidOutput)
  {
    var body := Canonical(CallObject(turn.name, turn.arguments));
    assert IsItem(c.tools, p, c.history[i]);
    EmittedIsPlain(printed, c.tools, c.history[i]);
    WrittenCallIsRead(printed, turn.name, turn.arguments);
    TaggedCallReadsBack(c, c.history[i], turn.name, text, preface, body, request, Strict(printed));
  }

  /** And written bare. */
  lemma ShownCallReadsBackBare(c: Conversation, p: Profile, i: nat, turn: Turn, text: Text, request: Text,
                               printed: Printer)
    requires IsWellFormed(c, p) && i < |c.history| && IsCall(c.history[i]) && Shows(c, i, turn) && turn.Proposed?
    requires HasProperArguments(printed, c.history[i]) && !Contains(text, OPEN_PART) && !Contains(text, CLOSE_PART)
    requires Strip(text) == Canonical(CallObject(turn.name, turn.arguments))
    ensures Bounded(c, Decode(c, Output(false, true, text), request, Strict(printed)))
         == if CanReadBack(c, text, [], request, c.history[i])
            then Proposal(Renumbered(c.history[i], CallId(request))) else Incomplete(InvalidOutput)
  {
    assert IsItem(c.tools, p, c.history[i]);
    EmittedIsPlain(printed, c.tools, c.history[i]);
    WrittenCallIsRead(printed, turn.name, turn.arguments);
    BareCallReadsBack(c, c.history[i], turn.name, text, request, Strict(printed));
  }

  lemma ThreeTextsReadBack(printed: Printer, a: Text, x: Text, b: Text, y: Text, c: Text, z: Text)
    requires a != b && a != c && b != c
    ensures var v := Object([(a, String(x)), (b, String(y)), (c, String(z))]); Loads(printed, Canonical(v)) == Some(v)
  {
    var v := Object([(a, String(x)), (b, String(y)), (c, String(z))]);
    assert KeysDiffer(v.members);
    LoadsInvertsCanonical(printed, v);
  }

  /** A result as it is shown reads back as the id of the call, the alias of its tool and the output. */
  lemma ShownResultReadsBack(printed: Printer, result: Item, alias: Text)
    requires result.ToolResult?
    ensures Strict(printed)(ReturnedTurn(result, alias).content)
         == Some(Object([(Ascii("call_id"), String(result.callId)), (Ascii("name"), String(alias)),
                         (Ascii("output"), String(result.output))]))
  {
    assert |CALL_ID| == 7 && |NAME| == 4 && |OUTPUT| == 6;
    ThreeTextsReadBack(printed, CALL_ID, result.callId, NAME, alias, OUTPUT, result.output);
  }

  lemma ResolvedIsProper(c: Conversation, parsed: Json, request: Text, printed: Printer)
    requires Resolve(c, parsed, request).Proposal? && IsProper(printed, parsed)
    ensures HasProperArguments(printed, Resolve(c, parsed, request).call)
  {
    var i := LookupFinds(parsed.members, ARGUMENTS);
    assert IsProper(printed, parsed.members[i].1);
  }

  /** What is decoded is proper again, so the round trip goes on for as long as the conversation does. */
  lemma DecodedCallIsProper(c: Conversation, output: Output, request: Text, printed: Printer)
    requires IsPrinter(printed) && Decode(c, output, request, Strict(printed)).Proposal?
    ensures HasProperArguments(printed, Decode(c, output, request, Strict(printed)).call)
  {
    var trimmed := Strip(output.text);
    var body := if Contains(output.text, OPEN_PART) || Contains(output.text, CLOSE_PART)
                then TaggedBody(trimmed).value else trimmed;
    LoadsIsStable(printed, body);
    ResolvedIsProper(c, Loads(printed, body).value, request, printed);
  }

  // Every output, exactly

  /** An output that is looked at: whole and ended, under a request id of 32 hexadecimal digits, and without any of the
      template's own markers. */
  predicate IsLegible(output: Output, request: Text) {
    && !output.truncated && output.ended
    && |request| == 32 && (forall i :: 0 <= i < 32 ==> 0x30 <= request[i] <= 0x39 || 0x61 <= request[i] <= 0x66)
    && !Contains(output.text, Ascii("<think")) && !Contains(output.text, Ascii("</think"))
    && !Contains(output.text, Ascii("<|im_")) && !Contains(output.text, Ascii("<|endoftext|>"))
  }

  predicate HasTag(text: Text) {
    Contains(text, Ascii("<tool_call")) || Contains(text, Ascii("</tool_call"))
  }

  /** An object with a name and arguments and nothing else. */
  ghost predicate HasCallShape(v: Json) {
    && v.Object?
    && (exists i :: 0 <= i < |v.members| && v.members[i].0 == Ascii("name"))
    && (exists i :: 0 <= i < |v.members| && v.members[i].0 == Ascii("arguments"))
    && (forall i :: 0 <= i < |v.members| ==> v.members[i].0 == Ascii("name") || v.members[i].0 == Ascii("arguments"))
  }

  lemma LegibleIsReached(output: Output, request: Text)
    ensures IsLegible(output, request)
       <==> !output.truncated && output.ended && IsRequestId(request) && !ContainsAny(output.text, Markers())
  {
    var t, m := output.text, Markers();
    assert m[0] == Ascii("<think") && m[1] == Ascii("</think") && m[2] == Ascii("<|im_")
           && m[3] == Ascii("<|endoftext|>");
  }

  lemma CallShapeIsFields(v: Json)
    ensures HasCallShape(v) <==> IsCallObject(v)
  {
    var keys := [NAME, ARGUMENTS];
    assert keys[0] == Ascii("name") && keys[1] == Ascii("arguments");
  }

  /** The stripped text is no call: no tool is offered, it cannot be read, or it is not a call object with a string for
      a name. */
  ghost predicate IsNoCall(c: Conversation, text: Text, read: Reader) {
    || c.tools == []
    || read(Strip(text)).None?
    || !HasCallShape(read(Strip(text)).value)
    || !Get(read(Strip(text)).value, NAME).value.String?
  }

  /** When an output is an answer: a legible text without tags that is no call, not blank, and at most 4096 bytes. */
  lemma AnswerIsExact(c: Conversation, output: Output, request: Text, read: Reader, text: Text)
    ensures Decode(c, output, request, read) == Answer(text)
       <==> && text == output.text && IsLegible(output, request) && !HasTag(text)
            && IsNoCall(c, text, read) && IsText(text, 4096, true)
  {
    LegibleIsReached(output, request);
    if read(Strip(output.text)).Some? {
      CallShapeIsFields(read(Strip(output.text)).value);
    }
  }

  /** When an output is cut off. */
  lemma CutOffIsExact(c: Conversation, output: Output, request: Text, read: Reader)
    ensures Decode(c, output, request, read) == Incomplete(WireTruncated) <==> output.truncated
    ensures Decode(c, output, request, read) == Incomplete(TokenLimit) <==> !output.truncated && !output.ended
  {}

  /** The body of a call in tags: nothing before the first opening tag but a preface, and the closing tag at the end. */
  predicate IsTagged(trimmed: Text, preface: Text, body: Text) {
    && trimmed == preface + (Ascii("<tool_call>") + (body + Ascii("</tool_call>")))
    && !Contains(preface, Ascii("<tool_call>"))
    && (preface != [] ==>
          && preface[|preface| - 1] == 0x0A && IsText(preface, 4096, true)
          && !Contains(preface, Ascii("<tool_call")) && !Contains(preface, Ascii("</tool_call"))
          && !Contains(preface, Ascii("```")) && !Contains(preface, Ascii("~~~")))
  }

  lemma PrefaceIsExact(preface: Text)
    ensures IsPreface(preface)
       <==> preface == []
            || (&& preface[|preface| - 1] == 0x0A && IsText(preface, 4096, true)
                && !Contains(preface, Ascii("<tool_call")) && !Contains(preface, Ascii("</tool_call"))
                && !Contains(preface, Ascii("```")) && !Contains(preface, Ascii("~~~")))
  {
    var m := PrefaceMarkers();
    assert m[0] == Ascii("<tool_call") && m[1] == Ascii("</tool_call") && m[2] == Ascii("```") && m[3] == Ascii("~~~");
  }

  lemma NothingBeforeFirst(t: Text, part: Text, i: nat)
    requires Find(t, part) == Some(i) && part != []
    ensures !Contains(t[..i], part)
  {
    forall k | 0 <= k <= i ensures !OccursAt(t[..i], part, k) {
      if k + |part| <= i {
        assert !OccursAt(t, part, k);
        assert t[k..k + |part|] == t[..i][k..k + |part|];
      }
    }
  }

  lemma TaggedBodyIsExact(trimmed: Text, body: Text)
    ensures TaggedBody(trimmed) == Some(body) <==> exists preface :: IsTagged(trimmed, preface, body)
  {
    if TaggedBody(trimmed) == Some(body) {
      var i := Find(trimmed, OPEN).value;
      var preface := TaggedBodySplits(trimmed);
      assert preface == trimmed[..i];
      NothingBeforeFirst(trimmed, OPEN, i);
      PrefaceIsExact(preface);
      assert IsTagged(trimmed, preface, body);
    }
    if preface :| IsTagged(trimmed, preface, body) {
      PrefaceIsExact(preface);
      TaggedBodyIsFound(preface, body);
    }
  }

  /** Where the call object is looked for: in the tags, or else in the whole text if tools are offered. */
  ghost predicate IsBody(c: Conversation, text: Text, body: Text) {
    if HasTag(text) then exists preface :: IsTagged(Strip(text), preface, body)
    else c.tools != [] && body == Strip(text)
  }

  /** What a call object stands for: the tool whose alias it names, under the id of the request, with the arguments, or
      with the one string a custom tool takes. */
  ghost predicate IsMeant(c: Conversation, v: Json, request: Text, call: Item, t: nat) {
    && t < |c.tools| && HasCallShape(v) && Get(v, NAME) == Some(String(Alias(t)))
    && var id, args := Ascii("vp-") + request, Get(v, ARGUMENTS).value;
       match c.tools[t]
       case FunctionTool(name, namespace, _, _) =>
         call == FunctionCall(id, name, if namespace.Named? then namespace else Unnamed, args)
       case CustomTool(name, namespace, _) =>
         && call.CustomCall?
         && call == CustomCall(id, name, if namespace.Named? then namespace else Unnamed, call.input)
         && args.Object? && (forall i :: 0 <= i < |args.members| ==> args.members[i].0 == Ascii("input"))
         && Get(args, Ascii("input")) == Some(String(call.input))
  }

  lemma InputIsOnlyField(args: Json)
    ensures HasFields(args, [INPUT])
       <==> args.Object? && Get(args, INPUT).Some?
            && forall i :: 0 <= i < |args.members| ==> args.members[i].0 == INPUT
  {
    var keys := [INPUT];
    assert keys[0] == INPUT;
  }

  lemma MeantIsCallOf(c: Conversation, v: Json, request: Text, call: Item, t: nat)
    requires t < |c.tools| && HasCallShape(v) && Get(v, NAME) == Some(String(Alias(t)))
    ensures Get(v, ARGUMENTS).Some?
    ensures IsMeant(c, v, request, call, t)
       <==> CallOf(c.tools[t], CallId(request), Get(v, ARGUMENTS).value) == Some(call)
  {
    CallShapeIsFields(v);
    InputIsOnlyField(Get(v, ARGUMENTS).value);
  }

  lemma ResolveIsExact(c: Conversation, v: Json, request: Text, call: Item)
    ensures Resolve(c, v, request) == Proposal(call)
       <==> && (exists t :: IsMeant(c, v, request, call, t))
            && IsCall(call) && IsProposal(c.tools, call) && !IsUsed(c.history, call.callId)
  {
    CallShapeIsFields(v);
    if IsCallObject(v) {
      forall t: nat | t < |c.tools| && Get(v, NAME) == Some(String(Alias(t)))
        ensures Selected(Get(v, NAME).value, |c.tools|) == [t]
        ensures IsMeant(c, v, request, call, t)
           <==> CallOf(c.tools[t], CallId(request), Get(v, ARGUMENTS).value) == Some(call)
      {
        SelectedOnlyAlias(t, |c.tools|);
        MeantIsCallOf(c, v, request, call, t);
      }
    }
  }

  /** The text has a body that reads as an object which means the call. */
  ghost predicate Proposes(c: Conversation, text: Text, request: Text, read: Reader, call: Item) {
    exists body, t :: IsBody(c, text, body) && read(body).Some? && IsMeant(c, read(body).value, request, call, t)
  }

  lemma TextHasBody(c: Conversation, output: Output, request: Text, read: Reader)
    requires IsLegible(output, request) && Decode(c, output, request, read).Proposal?
    ensures exists body :: IsBody(c, output.text, body)
  {
    LegibleIsReached(output, request);
    var trimmed := Strip(output.text);
    if HasTag(output.text) {
      TaggedBodyIsExact(trimmed, TaggedBody(trimmed).value);
      assert IsBody(c, output.text, TaggedBody(trimmed).value);
    } else {
      assert IsBody(c, output.text, trimmed);
    }
  }

  lemma BodyDecides(c: Conversation, output: Output, request: Text, read: Reader, body: Text, call: Item)
    requires IsLegible(output, request) && IsBody(c, output.text, body)
    ensures Decode(c, output, request, read) == Proposal(call)
       <==> read(body).Some? && Resolve(c, read(body).value, request) == Proposal(call)
  {
    LegibleIsReached(output, request);
    if HasTag(output.text) {
      TaggedBodyIsExact(Strip(output.text), body);
    } else if read(body).Some? && Resolve(c, read(body).value, request).Proposal? {
      var t := ResolvedIsCallTo(c, read(body).value, request);
    }
  }

  /** When an output is a proposal, and of what: a legible output whose body reads as an object that means the call,
      which is well formed, offered and new. */
  lemma ProposalIsExact(c: Conversation, output: Output, request: Text, read: Reader, call: Item)
    ensures Decode(c, output, request, read) == Proposal(call)
       <==> && IsLegible(output, request) && Proposes(c, output.text, request, read, call)
            && IsCall(call) && IsProposal(c.tools, call) && !IsUsed(c.history, call.callId)
  {
    LegibleIsReached(output, request);
    if IsLegible(output, request) {
      if Decode(c, output, request, read) == Proposal(call) {
        TextHasBody(c, output, request, read);
        var body :| IsBody(c, output.text, body);
        BodyDecides(c, output, request, read, body, call);
        ResolveIsExact(c, read(body).value, request, call);
      }
      if Proposes(c, output.text, request, read, call) {
        var body, t :| IsBody(c, output.text, body) && read(body).Some?
                       && IsMeant(c, read(body).value, request, call, t);
        BodyDecides(c, output, request, read, body, call);
        ResolveIsExact(c, read(body).value, request, call);
      }
    }
  }

  // The conversation goes on

  lemma MessagesStayInOrder(h: seq<Item>, a: Item, b: Item)
    requires Orderly(h) && a.Message? && b.Message?
    ensures Orderly(h + [a, b])
  {
    var g, n, next, end := h + [a, b], |h|, |h| + 1, |h| + 2;
    PrefixStaysInOrder(h, [a, b]);
    assert g[n] == a && g[next] == b;
    forall id ensures !Pending(g, next, id) && !Pending(g, end, id) {
      assert !Pending(g, n, id);
      CalledGrows(g, n, id);
      CalledGrows(g, next, id);
    }
    assert InOrder(g, n) && InOrder(g, next);
  }

  lemma NewCallIsUnanswered(h: seq<Item>, n: nat, id: Text)
    requires n <= |h| && (forall i :: 0 <= i < n ==> InOrder(h, i)) && !Called(h, n, id)
    ensures !Answered(h, n, id)
  {
    if Answered(h, n, id) {
      AnsweredWasCalled(h, n, id);
    }
  }

  lemma CallAndResultStayInOrder(h: seq<Item>, a: Item, b: Item)
    requires Orderly(h) && IsCall(a) && b.ToolResult? && a.callId == b.callId && !Called(h, |h|, a.callId)
    ensures Orderly(h + [a, b])
  {
    var g, n, next, end := h + [a, b], |h|, |h| + 1, |h| + 2;
    PrefixStaysInOrder(h, [a, b]);
    assert g[n] == a && g[next] == b;
    PrefixDecides(h, [a, b], n, a.callId);
    NewCallIsUnanswered(g, n, a.callId);
    CalledGrows(g, n, a.callId);
    AnsweredGrows(g, n, a.callId);
    assert InOrder(g, n) && InOrder(g, next);
    forall id ensures !Pending(g, end, id) {
      assert !Pending(g, n, id);
      CalledGrows(g, n, id);
      CalledGrows(g, next, id);
      AnsweredGrows(g, n, id);
      AnsweredGrows(g, next, id);
    }
  }

  /** There is room for two more items, in number and in bytes. */
  predicate HasRoom(c: Conversation, p: Profile, a: Item, b: Item) {
    |c.history| + 2 <= Bounds(p).history && EncodedSize(c) + 2 + ItemSize(a) + ItemSize(b) <= Bounds(p).input
  }

  lemma TwoMoreItems(tools: seq<Tool>, p: Profile, h: seq<Item>, a: Item, b: Item)
    requires ItemsAreWell(tools, p, h) && IsItem(tools, p, a)
    ensures ItemsAreWell(tools, p, h + [a, b]) <==> IsItem(tools, p, b)
  {
    var g := h + [a, b];
    assert g[|h|] == a && g[|h| + 1] == b;
    assert forall i :: 0 <= i < |h| ==> g[i] == h[i];
  }

  lemma TwoMoreInHeader(c: Conversation, p: Profile, a: Item, b: Item)
    requires HeaderIsGood(c, p)
    ensures HeaderIsGood(Extended(c, [a, b]), p) <==> |c.history| + 2 <= Bounds(p).history
  {}

  lemma TwoMoreAreWellFormed(c: Conversation, p: Profile, a: Item, b: Item)
    requires IsWellFormed(c, p) && IsItem(c.tools, p, a)
    requires b.ToolResult? || (b.Message? && b.role.User?)
    ensures IsWellFormed(Extended(c, [a, b]), p) <==> HasRoom(c, p, a, b) && IsItem(c.tools, p, b)
  {
    ExtendedSize(c, a, b);
    TwoMoreItems(c.tools, p, c.history, a, b);
    TwoMoreInHeader(c, p, a, b);
    assert EndsWell(c.history + [a, b]);
  }

  lemma CallContinues(c: Conversation, p: Profile, call: Item, result: Item)
    requires Accepted(c, p) && IsNewCall(c, call)
    requires result.ToolResult? && result.callId == call.callId
    ensures Accepted(Extended(c, [call, result]), p) <==> HasRoom(c, p, call, result) && IsItem(c.tools, p, result)
  {
    OrderIsPairing(c.history);
    CallAndResultStayInOrder(c.history, call, result);
    OrderIsPairing(c.history + [call, result]);
    TwoMoreAreWellFormed(c, p, call, result);
  }

  /** With a call and this output for it, the conversation is accepted again exactly when the two items fit, in number
      and in bytes, and the output is a text within bounds. */
  ghost predicate ContinuesWith(c: Conversation, p: Profile, call: Item, result: Text) {
    && IsCall(call)
    && var answer := ToolResult(call.callId, result);
       (Accepted(Extended(c, [call, answer]), p)
        <==> HasRoom(c, p, call, answer) && IsText(result, Bounds(p).message, false))
  }

  lemma NewCallContinues(c: Conversation, p: Profile, call: Item, result: Text)
    requires Accepted(c, p) && IsNewCall(c, call)
    ensures ContinuesWith(c, p, call, result)
  {
    CallContinues(c, p, call, ToolResult(call.callId, result));
  }

  /** When a decoded call and its result can be appended. */
  lemma ProposalContinues(c: Conversation, p: Profile, output: Output, request: Text, read: Reader, result: Text)
    requires Accepted(c, p)
    ensures var r := Bounded(c, Decode(c, output, request, read));
      r.Proposal? ==> ContinuesWith(c, p, r.call, result)
  {
    var r := Decode(c, output, request, read);
    if r.Proposal? {
      DecodedCallIsProposal(c, output, request, read);
      NewCallContinues(c, p, r.call, result);
    }
  }

  /** The same for a decoded answer followed by the user's next message. */
  lemma AnswerContinues(c: Conversation, p: Profile, output: Output, request: Text, read: Reader, next: Text)
    requires Accepted(c, p)
    ensures var r := Decode(c, output, request, read);
      r.Answer? ==>
        var said, asked := Message(Assistant, r.text), Message(User, next);
        (Accepted(Extended(c, [said, asked]), p)
         <==> HasRoom(c, p, said, asked) && IsText(next, Bounds(p).message, true))
  {
    if Decode(c, output, request, read).Answer? {
      DecodedAnswerIsText(c, output, request, read);
      var said, asked := Message(Assistant, output.text), Message(User, next);
      OrderIsPairing(c.history);
      MessagesStayInOrder(c.history, said, asked);
      OrderIsPairing(c.history + [said, asked]);
      TwoMoreAreWellFormed(c, p, said, asked);
    }
  }
}
