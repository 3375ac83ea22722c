/** Validation of a private conversation: its offered tools, and a history in which calls and results pair off. */
module Conversation {
  import opened Unicode
  import opened JsonText
  import opened JsonValues
  import opened JsonSizes

  datatype Profile = Plain | Qwen | Qwen4B

  datatype Limits = Limits(input: nat, instructions: nat, history: nat, tools: nat, message: nat, description: nat)

  const PAYLOAD_BYTES := 4096

  predicate IsNative(p: Profile) {
    p != Plain
  }

  function Bounds(p: Profile): (b: Limits)
    ensures PAYLOAD_BYTES <= b.message
  {
    if IsNative(p) then Limits(262144, 65536, 128, 32, 65536, 8192) else Limits(24 * 1024, 4096, 32, 8, 8192, 2048)
  }

  /** A namespace may be left out, be null, or be given. The first two mean the same and take different room. */
  datatype Namespace = Unspecified | Unnamed | Named(name: Text)

  datatype Tool =
    | FunctionTool(name: Text, namespace: Namespace, description: Text, parameters: Json)
    | CustomTool(name: Text, namespace: Namespace, description: Text)

  datatype Role = User | Assistant | System | Developer

  datatype Item =
    | Message(role: Role, text: Text)
    | FunctionCall(callId: Text, name: Text, namespace: Namespace, arguments: Json)
    | CustomCall(callId: Text, name: Text, namespace: Namespace, input: Text)
    | ToolResult(callId: Text, output: Text)

  datatype Conversation =
    Conversation(instructions: Text, history: seq<Item>, tools: seq<Tool>, greedy: bool, constrained: bool)

  // Fields

  predicate IsEncodable(t: Text) {
    forall i :: 0 <= i < |t| ==> !IsSurrogate(t[i])
  }

  predicate IsText(t: Text, maximum: nat, nonempty: bool) {
    IsEncodable(t) && Bytes(t) <= maximum && 0 !in t && (nonempty ==> Strip(t) != [])
  }

  predicate IsIdentifierCode(c: Code) {
    0x41 <= c <= 0x5A || 0x61 <= c <= 0x7A || 0x30 <= c <= 0x39 || c == 0x5F || c == 0x2E || c == 0x2D
  }

  predicate IsIdentifier(t: Text) {
    1 <= |t| <= 64 && forall i :: 0 <= i < |t| ==> IsIdentifierCode(t[i])
  }

  predicate IsArguments(v: Json) {
    v.Object? && IsFinite(v) && IsEncodable(Canonical(v)) && Bytes(Canonical(v)) <= PAYLOAD_BYTES
  }

  type Key = (Text, Option<Text>)

  function GivenName(ns: Namespace): (r: Option<Text>) {
    if ns.Named? then Some(ns.name) else None
  }

  function ToolKey(tool: Tool): (k: Key) {
    (tool.name, GivenName(tool.namespace))
  }

  // Tools

  const TYPE: Text := Ascii("type")
  const OBJECT: Text := Ascii("object")

  predicate IsTool(tool: Tool, b: Limits) {
    && IsIdentifier(tool.name)
    && (tool.namespace.Named? ==> IsIdentifier(tool.namespace.name))
    && IsText(tool.description, b.description, true)
    && (tool.FunctionTool? ==> IsArguments(tool.parameters) && Get(tool.parameters, TYPE) == Some(String(OBJECT)))
  }

  predicate DistinctKeys(tools: seq<Tool>) {
    forall i, j :: 0 <= i < j < |tools| ==> ToolKey(tools[i]) != ToolKey(tools[j])
  }

  predicate ToolsAreOffered(tools: seq<Tool>, b: Limits) {
    (forall i :: 0 <= i < |tools| ==> IsTool(tools[i], b)) && DistinctKeys(tools)
  }

  method ValidateTools(tools: seq<Tool>, b: Limits) returns (ok: bool)
    ensures ok <==> ToolsAreOffered(tools, b)
  {
    var seen: set<Key> := {};
    for n := 0 to |tools|
      invariant ToolsAreOffered(tools[..n], b)
      invariant forall k :: k in seen <==> exists i :: 0 <= i < n && ToolKey(tools[i]) == k
    {
      if !IsTool(tools[n], b) || ToolKey(tools[n]) in seen {
        return false;
      }
      seen := seen + {ToolKey(tools[n])};
      assert tools[..n + 1] == tools[..n] + [tools[n]];
    }
    assert tools[..|tools|] == tools;
    ok := true;
  }

  // Calls and results

  predicate IsCall(item: Item) {
    item.FunctionCall? || item.CustomCall?
  }

  function CallKey(call: Item): (k: Key)
    requires IsCall(call)
  {
    (call.name, GivenName(call.namespace))
  }

  predicate Offers(tool: Tool, call: Item)
    requires IsCall(call)
  {
    ToolKey(tool) == CallKey(call) && (tool.CustomTool? <==> call.CustomCall?)
  }

  predicate IsOffered(tools: seq<Tool>, call: Item)
    requires IsCall(call)
  {
    exists i :: 0 <= i < |tools| && Offers(tools[i], call)
  }

  /** What a call must be apart from the freshness of its id. */
  predicate IsProposal(tools: seq<Tool>, call: Item)
    requires IsCall(call)
  {
    && IsIdentifier(call.callId)
    && IsOffered(tools, call)
    && (if call.CustomCall? then IsText(call.input, PAYLOAD_BYTES, true) else IsArguments(call.arguments))
  }

  predicate IsRole(role: Role, p: Profile) {
    role.User? || role.Assistant? || IsNative(p)
  }

  /** What an item must be on its own. */
  predicate IsItem(tools: seq<Tool>, p: Profile, item: Item) {
    match item
    case Message(role, text) => IsRole(role, p) && IsText(text, Bounds(p).message, true)
    case ToolResult(_, output) => IsText(output, Bounds(p).message, false)
    case _ => IsProposal(tools, item)
  }

  predicate ItemsAreWell(tools: seq<Tool>, p: Profile, h: seq<Item>) {
    forall i :: 0 <= i < |h| ==> IsItem(tools, p, h[i])
  }

  ghost predicate Called(h: seq<Item>, n: nat, id: Text)
    requires n <= |h|
  {
    exists j :: 0 <= j < n && IsCall(h[j]) && h[j].callId == id
  }

  ghost predicate Answered(h: seq<Item>, n: nat, id: Text)
    requires n <= |h|
  {
    exists j :: 0 <= j < n && h[j].ToolResult? && h[j].callId == id
  }

  ghost predicate Pending(h: seq<Item>, n: nat, id: Text)
    requires n <= |h|
  {
    Called(h, n, id) && !Answered(h, n, id)
  }

  ghost predicate NonePending(h: seq<Item>, n: nat)
    requires n <= |h|
  {
    forall id :: !Pending(h, n, id)
  }

  /** How item `n` must stand to the items before it. */
  ghost predicate InOrder(h: seq<Item>, n: nat)
    requires n < |h|
  {
    match h[n]
    case Message(_, _) => NonePending(h, n)
    case ToolResult(id, _) => Pending(h, n, id)
    case _ => !Called(h, n, h[n].callId)
  }

  ghost predicate Orderly(h: seq<Item>) {
    (forall n :: 0 <= n < |h| ==> InOrder(h, n)) && NonePending(h, |h|)
  }

  ghost predicate ItemsAreGood(tools: seq<Tool>, p: Profile, h: seq<Item>, n: nat)
    requires n <= |h|
  {
    forall i :: 0 <= i < n ==> IsItem(tools, p, h[i]) && InOrder(h, i)
  }

  lemma CalledGrows(h: seq<Item>, n: nat, id: Text)
    requires n < |h|
    ensures Called(h, n + 1, id) <==> Called(h, n, id) || (IsCall(h[n]) && h[n].callId == id)
  {}

  lemma AnsweredGrows(h: seq<Item>, n: nat, id: Text)
    requires n < |h|
    ensures Answered(h, n + 1, id) <==> Answered(h, n, id) || (h[n].ToolResult? && h[n].callId == id)
  {}

  /** The two sets hold the ids called so far and the ids still without a result. */
  ghost predicate Tracks(h: seq<Item>, n: nat, seen: set<Text>, pending: set<Text>)
    requires n <= |h|
  {
    && (forall id :: id in seen <==> Called(h, n, id))
    && (forall id :: id in pending <==> Pending(h, n, id))
  }

  /** A result can only answer a call already seen, so a new call is never answered in advance. */
  lemma {:induction false} AnsweredWasCalled(h: seq<Item>, n: nat, id: Text)
    requires n <= |h| && (forall i :: 0 <= i < n ==> InOrder(h, i)) && Answered(h, n, id)
    ensures Called(h, n, id)
  {
    var j :| 0 <= j < n && h[j].ToolResult? && h[j].callId == id;
    assert InOrder(h, j);
    assert Called(h, j, id);
  }

  lemma TracksStep(h: seq<Item>, n: nat, seen: set<Text>, pending: set<Text>)
    requires n < |h| && Tracks(h, n, seen, pending) && (forall i :: 0 <= i <= n ==> InOrder(h, i))
    ensures h[n].Message? ==> Tracks(h, n + 1, seen, pending)
    ensures IsCall(h[n]) ==> Tracks(h, n + 1, seen + {h[n].callId}, pending + {h[n].callId})
    ensures h[n].ToolResult? ==> Tracks(h, n + 1, seen, pending - {h[n].callId})
  {
    forall id
      ensures Called(h, n + 1, id) <==> Called(h, n, id) || (IsCall(h[n]) && h[n].callId == id)
      ensures Answered(h, n + 1, id) <==> Answered(h, n, id) || (h[n].ToolResult? && h[n].callId == id)
      ensures Answered(h, n, id) ==> Called(h, n, id)
    {
      CalledGrows(h, n, id);
      AnsweredGrows(h, n, id);
      if Answered(h, n, id) {
        AnsweredWasCalled(h, n, id);
      }
    }
    assert InOrder(h, n);
  }

  /** The pass over the history, with its two sets, decides exactly whether every item is good and nothing is left
      pending. */
  method ValidateHistory(tools: seq<Tool>, p: Profile, h: seq<Item>) returns (ok: bool)
    ensures ok <==> ItemsAreGood(tools, p, h, |h|) && NonePending(h, |h|)
  {
    var seen: set<Text>, pending: set<Text> := {}, {};
    for n := 0 to |h|
      invariant ItemsAreGood(tools, p, h, n)
      invariant Tracks(h, n, seen, pending)
    {
      var item := h[n];
      var inOrder := match item
        case Message(_, _) => pending == {}
        case ToolResult(id, _) => id in pending
        case _ => item.callId !in seen;
      assert inOrder <==> InOrder(h, n);
      if !IsItem(tools, p, item) || !inOrder {
        return false;
      }
      TracksStep(h, n, seen, pending);
      if IsCall(item) {
        seen, pending := seen + {item.callId}, pending + {item.callId};
      } else if item.ToolResult? {
        pending := pending - {item.callId};
      }
    }
    ok := pending == {};
  }

  // What order means: calls and results pair off

  ghost predicate CallsAreDistinct(h: seq<Item>) {
    forall i, j :: 0 <= i < j < |h| && IsCall(h[i]) && IsCall(h[j]) ==> h[i].callId != h[j].callId
  }

  ghost predicate ResultsAreDistinct(h: seq<Item>) {
    forall i, j :: 0 <= i < j < |h| && h[i].ToolResult? && h[j].ToolResult? ==> h[i].callId != h[j].callId
  }

  ghost predicate Answers(h: seq<Item>, call: int, result: int) {
    && 0 <= call < result < |h|
    && IsCall(h[call])
    && h[result].ToolResult?
    && h[call].callId == h[result].callId
  }

  ghost predicate CallsAreAnswered(h: seq<Item>) {
    forall i :: 0 <= i < |h| && IsCall(h[i]) ==> exists k :: Answers(h, i, k)
  }

  ghost predicate ResultsWereCalled(h: seq<Item>) {
    forall k :: 0 <= k < |h| && h[k].ToolResult? ==> exists i :: Answers(h, i, k)
  }

  ghost predicate IsQuietBetween(h: seq<Item>) {
    forall i, m, k :: Answers(h, i, k) && i < m < k ==> !h[m].Message?
  }

  /** Every call has one result, later; every result has one call, earlier; nobody speaks in between. */
  ghost predicate PairsOff(h: seq<Item>) {
    CallsAreDistinct(h) && ResultsAreDistinct(h) && CallsAreAnswered(h) && ResultsWereCalled(h) && IsQuietBetween(h)
  }

  lemma OrderlyCallsAreDistinct(h: seq<Item>)
    requires Orderly(h)
    ensures CallsAreDistinct(h) && ResultsAreDistinct(h)
  {
    forall i, j | 0 <= i < j < |h| && IsCall(h[i]) && IsCall(h[j]) ensures h[i].callId != h[j].callId {
      assert InOrder(h, j);
    }
    forall i, j | 0 <= i < j < |h| && h[i].ToolResult? && h[j].ToolResult? ensures h[i].callId != h[j].callId {
      assert InOrder(h, j);
      assert !Answered(h, j, h[j].callId);
    }
  }

  lemma OrderlyResultHasCall(h: seq<Item>, k: nat) returns (i: nat)
    requires Orderly(h) && k < |h| && h[k].ToolResult?
    ensures Answers(h, i, k)
  {
    assert InOrder(h, k);
    assert Called(h, k, h[k].callId);
    i :| 0 <= i < k && IsCall(h[i]) && h[i].callId == h[k].callId;
  }

  lemma OrderlyCallHasResult(h: seq<Item>, i: nat) returns (k: nat)
    requires Orderly(h) && i < |h| && IsCall(h[i])
    ensures Answers(h, i, k)
  {
    var id := h[i].callId;
    assert Called(h, |h|, id);
    assert !Pending(h, |h|, id);
    k :| 0 <= k < |h| && h[k].ToolResult? && h[k].callId == id;
    var j := OrderlyResultHasCall(h, k);
    OrderlyCallsAreDistinct(h);
    assert i == j;
  }

  lemma OrderlyIsQuiet(h: seq<Item>, i: nat, m: nat, k: nat)
    requires Orderly(h) && Answers(h, i, k) && i < m < k
    ensures !h[m].Message?
  {
    var id := h[i].callId;
    assert InOrder(h, k) && !Answered(h, k, id);
    assert Called(h, m, id) && Pending(h, m, id);
    assert InOrder(h, m);
  }

  lemma QuietMeansNonePending(h: seq<Item>, n: nat)
    requires CallsAreAnswered(h) && IsQuietBetween(h) && n <= |h| && (n < |h| ==> h[n].Message?)
    ensures NonePending(h, n)
  {
    forall id ensures !Pending(h, n, id) {
      if Called(h, n, id) {
        var i :| 0 <= i < n && IsCall(h[i]) && h[i].callId == id;
        var k :| Answers(h, i, k);
        assert k < n;
        assert Answered(h, n, id);
      }
    }
  }

  lemma PairedResultIsInOrder(h: seq<Item>, n: nat)
    requires ResultsWereCalled(h) && ResultsAreDistinct(h) && n < |h| && h[n].ToolResult?
    ensures Pending(h, n, h[n].callId)
  {
    var i :| Answers(h, i, n);
    assert Called(h, n, h[n].callId);
  }

  lemma PairedItemIsInOrder(h: seq<Item>, n: nat)
    requires PairsOff(h) && n < |h|
    ensures InOrder(h, n)
  {
    match h[n]
    case Message(_, _) => QuietMeansNonePending(h, n);
    case ToolResult(_, _) => PairedResultIsInOrder(h, n);
    case _ => assert !Called(h, n, h[n].callId);
  }

  /** The one-pass bookkeeping and the pairing are the same property. */
  lemma OrderIsPairing(h: seq<Item>)
    ensures Orderly(h) <==> PairsOff(h)
  {
    if Orderly(h) {
      OrderlyCallsAreDistinct(h);
      forall i | 0 <= i < |h| && IsCall(h[i]) ensures exists k :: Answers(h, i, k) {
        var k := OrderlyCallHasResult(h, i);
      }
      forall k | 0 <= k < |h| && h[k].ToolResult? ensures exists i :: Answers(h, i, k) {
        var i := OrderlyResultHasCall(h, k);
      }
      forall i, m, k | Answers(h, i, k) && i < m < k ensures !h[m].Message? {
        OrderlyIsQuiet(h, i, m, k);
      }
    }
    if PairsOff(h) {
      forall n | 0 <= n < |h| ensures InOrder(h, n) {
        PairedItemIsInOrder(h, n);
      }
      QuietMeansNonePending(h, |h|);
    }
  }

  /** What the pass over the history decides, said without order. */
  lemma GoodHistory(tools: seq<Tool>, p: Profile, h: seq<Item>)
    ensures ItemsAreGood(tools, p, h, |h|) && NonePending(h, |h|) <==> ItemsAreWell(tools, p, h) && PairsOff(h)
  {
    OrderIsPairing(h);
  }

  // The encoding

  const NAME: Text := Ascii("name")
  const NAMESPACE: Text := Ascii("namespace")
  const DESCRIPTION: Text := Ascii("description")
  const PARAMETERS: Text := Ascii("parameters")
  const ROLE: Text := Ascii("role")
  const TEXT: Text := Ascii("text")
  const CALL_ID: Text := Ascii("call_id")
  const ARGUMENTS: Text := Ascii("arguments")
  const INPUT: Text := Ascii("input")
  const OUTPUT: Text := Ascii("output")
  const VERSION: Text := Ascii("version")
  const VISIBILITY: Text := Ascii("visibility")
  const INSTRUCTIONS: Text := Ascii("instructions")
  const TOOLS: Text := Ascii("tools")
  const HISTORY: Text := Ascii("history")
  const GENERATION_POLICY: Text := Ascii("generation_policy")
  const OUTPUT_CONSTRAINT: Text := Ascii("output_constraint")

  function NamespaceMembers(ns: Namespace): (r: seq<(Text, Json)>) {
    match ns
    case Unspecified => []
    case Unnamed => [(NAMESPACE, Null)]
    case Named(name) => [(NAMESPACE, String(name))]
  }

  function RoleName(role: Role): (t: Text) {
    match role
    case User => Ascii("user")
    case Assistant => Ascii("assistant")
    case System => Ascii("system")
    case Developer => Ascii("developer")
  }

  function ItemJson(item: Item): (v: Json) {
    match item
    case Message(role, text) =>
      Object([(TYPE, String(Ascii("message"))), (ROLE, String(RoleName(role))), (TEXT, String(text))])
    case FunctionCall(callId, name, namespace, arguments) =>
      Object([(TYPE, String(Ascii("function_call"))), (CALL_ID, String(callId)), (NAME, String(name)),
              (ARGUMENTS, arguments)] + NamespaceMembers(namespace))
    case CustomCall(callId, name, namespace, input) =>
      Object([(TYPE, String(Ascii("custom_tool_call"))), (CALL_ID, String(callId)), (NAME, String(name)),
              (INPUT, String(input))] + NamespaceMembers(namespace))
    case ToolResult(callId, output) =>
      Object([(TYPE, String(Ascii("tool_result"))), (CALL_ID, String(callId)), (OUTPUT, String(output))])
  }

  function ToolJson(tool: Tool): (v: Json) {
    match tool
    case FunctionTool(name, namespace, description, parameters) =>
      Object([(TYPE, String(Ascii("function"))), (NAME, String(name)), (DESCRIPTION, String(description)),
              (PARAMETERS, parameters)] + NamespaceMembers(namespace))
    case CustomTool(name, namespace, description) =>
      Object([(TYPE, String(Ascii("custom"))), (NAME, String(name)), (DESCRIPTION, String(description))]
             + NamespaceMembers(namespace))
  }

  function ItemsJson(h: seq<Item>): (r: seq<Json>)
    ensures |r| == |h| && forall i :: 0 <= i < |h| ==> r[i] == ItemJson(h[i])
  {
    seq(|h|, i requires 0 <= i < |h| => ItemJson(h[i]))
  }

  function ToolsJson(tools: seq<Tool>): (r: seq<Json>)
    ensures |r| == |tools| && forall i :: 0 <= i < |tools| ==> r[i] == ToolJson(tools[i])
  {
    seq(|tools|, i requires 0 <= i < |tools| => ToolJson(tools[i]))
  }

  /** Every member of a conversation but its history. */
  function Heading(c: Conversation): (r: seq<(Text, Json)>) {
    [(VERSION, Number(Ascii("1"))), (VISIBILITY, String(Ascii("private_local"))),
     (INSTRUCTIONS, String(c.instructions)), (TOOLS, Array(ToolsJson(c.tools)))]
    + (if c.greedy then [(GENERATION_POLICY, String(Ascii("greedy_v1")))] else [])
    + (if c.constrained then [(OUTPUT_CONSTRAINT, String(Ascii("qwen_tagged_tool_json_v1")))] else [])
  }

  /** A conversation as it is sent, up to the order of members, which its size does not depend on. */
  function ConversationJson(c: Conversation): (v: Json) {
    Object(Heading(c) + [(HISTORY, Array(ItemsJson(c.history)))])
  }

  function EncodedSize(c: Conversation): (n: nat) {
    Size(ConversationJson(c))
  }

  function ItemSize(item: Item): (n: nat) {
    Size(ItemJson(item))
  }

  // The whole conversation

  predicate HeaderIsGood(c: Conversation, p: Profile) {
    var b := Bounds(p);
    && (c.greedy ==> IsNative(p))
    && (c.constrained ==> p.Qwen4B? && c.greedy && 1 <= |c.tools| <= 32)
    && IsText(c.instructions, b.instructions, true)
    && 1 <= |c.history| <= b.history
    && |c.tools| <= b.tools
  }

  predicate EndsWell(h: seq<Item>)
    requires h != []
  {
    var last := h[|h| - 1];
    last.ToolResult? || (last.Message? && last.role.User?)
  }

  /** Everything but the pairing. */
  ghost predicate IsWellFormed(c: Conversation, p: Profile) {
    && HeaderIsGood(c, p)
    && ToolsAreOffered(c.tools, Bounds(p))
    && ItemsAreWell(c.tools, p, c.history)
    && EndsWell(c.history)
    && EncodedSize(c) <= Bounds(p).input
  }

  /** The conversations that are let in, said without any bookkeeping. */
  ghost predicate Accepted(c: Conversation, p: Profile) {
    IsWellFormed(c, p) && PairsOff(c.history)
  }

  method Validate(c: Conversation, p: Profile) returns (ok: bool)
    ensures ok <==> Accepted(c, p)
  {
    if !HeaderIsGood(c, p) {
      return false;
    }
    var offered := ValidateTools(c.tools, Bounds(p));
    if !offered {
      return false;
    }
    GoodHistory(c.tools, p, c.history);
    var good := ValidateHistory(c.tools, p, c.history);
    ok := good && EndsWell(c.history) && EncodedSize(c) <= Bounds(p).input;
  }

  // The same in figures

  /** Text that can be encoded, within its bytes, without NUL. */
  predicate Fits(t: Text, bytes: nat) {
    Bytes(t) <= bytes && forall i :: 0 <= i < |t| ==> t[i] != 0 && !(0xD800 <= t[i] <= 0xDFFF)
  }

  /** And not blank. */
  predicate Says(t: Text, bytes: nat) {
    Fits(t, bytes) && exists i :: 0 <= i < |t| && !IsSpace(t[i])
  }

  /** ASCII letters, digits, and the three signs. */
  predicate IsNameCode(c: int) {
    || 'A' as int <= c <= 'Z' as int || 'a' as int <= c <= 'z' as int || '0' as int <= c <= '9' as int
    || c == '_' as int || c == '.' as int || c == '-' as int
  }

  predicate IsName(t: Text) {
    1 <= |t| <= 64 && forall i :: 0 <= i < |t| ==> IsNameCode(t[i])
  }

  /** An object that encodes to at most 4096 bytes. */
  predicate IsPayload(v: Json) {
    && v.Object? && IsFinite(v) && Size(v) <= 4096
    && forall i :: 0 <= i < |Canonical(v)| ==> !(0xD800 <= Canonical(v)[i] <= 0xDFFF)
  }

  predicate SameTool(name: Text, namespace: Namespace, name': Text, namespace': Namespace) {
    && name == name'
    && (namespace.Named? || namespace'.Named? ==> namespace == namespace')
  }

  predicate ToolInFigures(tool: Tool, native: bool) {
    && IsName(tool.name)
    && (tool.namespace.Named? ==> IsName(tool.namespace.name))
    && Says(tool.description, if native then 8192 else 2048)
    && (tool.FunctionTool? ==>
          IsPayload(tool.parameters) && Get(tool.parameters, Ascii("type")) == Some(String(Ascii("object"))))
  }

  predicate ItemInFigures(tools: seq<Tool>, item: Item, native: bool) {
    match item
    case Message(role, text) =>
      Says(text, if native then 65536 else 8192) && (native || role == User || role == Assistant)
    case ToolResult(_, output) => Fits(output, if native then 65536 else 8192)
    case FunctionCall(id, name, namespace, arguments) =>
      && IsName(id) && IsPayload(arguments)
      && exists t :: 0 <= t < |tools| && tools[t].FunctionTool?
                     && SameTool(tools[t].name, tools[t].namespace, name, namespace)
    case CustomCall(id, name, namespace, input) =>
      && IsName(id) && Says(input, 4096)
      && exists t :: 0 <= t < |tools| && tools[t].CustomTool?
                     && SameTool(tools[t].name, tools[t].namespace, name, namespace)
  }

  predicate ToolListInFigures(tools: seq<Tool>, native: bool) {
    && (forall i :: 0 <= i < |tools| ==> ToolInFigures(tools[i], native))
    && (forall i, j :: 0 <= i < j < |tools| ==>
          !SameTool(tools[i].name, tools[i].namespace, tools[j].name, tools[j].namespace))
  }

  predicate HistoryInFigures(tools: seq<Tool>, h: seq<Item>, native: bool) {
    forall i :: 0 <= i < |h| ==> ItemInFigures(tools, h[i], native)
  }

  predicate HeaderInFigures(c: Conversation, p: Profile, native: bool) {
    && Says(c.instructions, if native then 65536 else 4096)
    && 1 <= |c.history| <= (if native then 128 else 32)
    && |c.tools| <= (if native then 32 else 8)
    && (c.greedy ==> native)
    && (c.constrained ==> p == Qwen4B && c.greedy && c.tools != [])
  }

  predicate EndInFigures(c: Conversation, native: bool)
    requires c.history != []
  {
    var last := c.history[|c.history| - 1];
    && (last.ToolResult? || (last.Message? && last.role == User))
    && EncodedSize(c) <= (if native then 262144 else 24576)
  }

  /** Everything but the pairing, with every bound written out. */
  ghost predicate InFigures(c: Conversation, p: Profile) {
    var native := p == Qwen || p == Qwen4B;
    && HeaderInFigures(c, p, native)
    && ToolListInFigures(c.tools, native)
    && HistoryInFigures(c.tools, c.history, native)
    && EndInFigures(c, native)
  }

  lemma TextInFigures(t: Text, bytes: nat)
    ensures IsText(t, bytes, false) <==> Fits(t, bytes)
    ensures IsText(t, bytes, true) <==> Says(t, bytes)
  {
    StripIsEmpty(t);
  }

  lemma NameInFigures(t: Text)
    ensures IsIdentifier(t) <==> IsName(t)
  {
    assert forall c: Code :: IsIdentifierCode(c) <==> IsNameCode(c);
  }

  lemma ToolsInFigures(tool: Tool, p: Profile)
    ensures IsTool(tool, Bounds(p)) <==> ToolInFigures(tool, p == Qwen || p == Qwen4B)
  {
    NameInFigures(tool.name);
    if tool.namespace.Named? {
      NameInFigures(tool.namespace.name);
    }
    TextInFigures(tool.description, Bounds(p).description);
  }

  lemma ItemsInFigures(tools: seq<Tool>, p: Profile, item: Item)
    ensures IsItem(tools, p, item) <==> ItemInFigures(tools, item, p == Qwen || p == Qwen4B)
  {
    match item
    case Message(_, text) => TextInFigures(text, Bounds(p).message);
    case ToolResult(_, output) => TextInFigures(output, Bounds(p).message);
    case FunctionCall(id, _, _, _) =>
      NameInFigures(id);
      assert forall t :: 0 <= t < |tools| ==> (Offers(tools[t], item) <==>
               tools[t].FunctionTool? && SameTool(tools[t].name, tools[t].namespace, item.name, item.namespace));
    case CustomCall(id, _, _, input) =>
      NameInFigures(id);
      TextInFigures(input, 4096);
      assert forall t :: 0 <= t < |tools| ==> (Offers(tools[t], item) <==>
               tools[t].CustomTool? && SameTool(tools[t].name, tools[t].namespace, item.name, item.namespace));
  }

  lemma SameToolIsSameKey(tools: seq<Tool>, i: nat, j: nat)
    requires i < |tools| && j < |tools|
    ensures ToolKey(tools[i]) == ToolKey(tools[j])
       <==> SameTool(tools[i].name, tools[i].namespace, tools[j].name, tools[j].namespace)
  {}

  lemma OfferedInFigures(tools: seq<Tool>, p: Profile)
    ensures ToolsAreOffered(tools, Bounds(p)) <==> ToolListInFigures(tools, p == Qwen || p == Qwen4B)
  {
    forall i | 0 <= i < |tools|
      ensures IsTool(tools[i], Bounds(p)) <==> ToolInFigures(tools[i], p == Qwen || p == Qwen4B)
    {
      ToolsInFigures(tools[i], p);
    }
    forall i, j | 0 <= i < j < |tools|
      ensures ToolKey(tools[i]) == ToolKey(tools[j])
         <==> SameTool(tools[i].name, tools[i].namespace, tools[j].name, tools[j].namespace)
    {
      SameToolIsSameKey(tools, i, j);
    }
  }

  lemma WellInFigures(tools: seq<Tool>, p: Profile, h: seq<Item>)
    ensures ItemsAreWell(tools, p, h) <==> HistoryInFigures(tools, h, p == Qwen || p == Qwen4B)
  {
    forall i | 0 <= i < |h| ensures IsItem(tools, p, h[i]) <==> ItemInFigures(tools, h[i], p == Qwen || p == Qwen4B) {
      ItemsInFigures(tools, p, h[i]);
    }
  }

  lemma HeaderIsInFigures(c: Conversation, p: Profile)
    ensures HeaderIsGood(c, p) <==> HeaderInFigures(c, p, p == Qwen || p == Qwen4B)
  {
    TextInFigures(c.instructions, Bounds(p).instructions);
  }

  lemma EndIsInFigures(c: Conversation, p: Profile)
    requires c.history != []
    ensures EndsWell(c.history) && EncodedSize(c) <= Bounds(p).input
       <==> EndInFigures(c, p == Qwen || p == Qwen4B)
  {}

  lemma WellFormedInFigures(c: Conversation, p: Profile)
    ensures IsWellFormed(c, p) <==> InFigures(c, p)
  {
    HeaderIsInFigures(c, p);
    OfferedInFigures(c.tools, p);
    WellInFigures(c.tools, p, c.history);
    if c.history != [] {
      EndIsInFigures(c, p);
    }
  }

  /** Which conversations are accepted, in the documented figures. */
  lemma AcceptedInFigures(c: Conversation, p: Profile)
    ensures Accepted(c, p) <==> InFigures(c, p) && PairsOff(c.history)
  {
    WellFormedInFigures(c, p);
  }

  // Growing a conversation

  function Extended(c: Conversation, more: seq<Item>): (r: Conversation) {
    c.(history := c.history + more)
  }

  /** The size of a conversation is that of its heading and its items, with a comma between any two. */
  lemma SizeOfParts(c: Conversation)
    ensures EncodedSize(c) == 2 + Total(MemberSizes(Heading(c))) + |Heading(c)|
                              + (Bytes(Dumps(HISTORY)) + 1
                                 + (2 + Total(ItemSizes(ItemsJson(c.history))) + Commas(|c.history|)))
  {
    var history := (HISTORY, Array(ItemsJson(c.history)));
    ObjectSize(Heading(c) + [history]);
    ArraySize(ItemsJson(c.history));
    OneMoreMember(Heading(c), history);
  }

  lemma ItemsTotal(h: seq<Item>, a: Item, b: Item)
    ensures Total(ItemSizes(ItemsJson(h + [a, b]))) == Total(ItemSizes(ItemsJson(h))) + ItemSize(a) + ItemSize(b)
  {
    assert ItemSizes(ItemsJson(h + [a, b])) == ItemSizes(ItemsJson(h)) + ([ItemSize(a)] + [ItemSize(b)]);
    TotalConcat(ItemSizes(ItemsJson(h)), [ItemSize(a)] + [ItemSize(b)]);
    TotalConcat([ItemSize(a)], [ItemSize(b)]);
    TotalOfOne(ItemSize(a));
    TotalOfOne(ItemSize(b));
  }

  /** What two more items add to the size. */
  lemma ExtendedSize(c: Conversation, a: Item, b: Item)
    requires c.history != []
    ensures EncodedSize(Extended(c, [a, b])) == EncodedSize(c) + 2 + ItemSize(a) + ItemSize(b)
  {
    SizeOfParts(c);
    SizeOfParts(Extended(c, [a, b]));
    ItemsTotal(c.history, a, b);
  }

  lemma PrefixDecides(h: seq<Item>, more: seq<Item>, n: nat, id: Text)
    requires n <= |h|
    ensures Called(h + more, n, id) <==> Called(h, n, id)
    ensures Answered(h + more, n, id) <==> Answered(h, n, id)
  {
    assert forall j :: 0 <= j < n ==> (h + more)[j] == h[j];
  }

  lemma PrefixStaysInOrder(h: seq<Item>, more: seq<Item>)
    requires Orderly(h)
    ensures forall n :: 0 <= n < |h| ==> InOrder(h + more, n)
    ensures NonePending(h + more, |h|)
  {
    forall n, id | 0 <= n <= |h|
      ensures Pending(h + more, n, id) <==> Pending(h, n, id)
      ensures Called(h + more, n, id) <==> Called(h, n, id)
    {
      PrefixDecides(h, more, n, id);
    }
    forall n | 0 <= n < |h| ensures InOrder(h + more, n) {
      assert InOrder(h, n);
      assert (h + more)[n] == h[n];
      if h[n].Message? {
        forall id ensures !Pending(h + more, n, id) {
          assert !Pending(h, n, id);
        }
      }
    }
    forall id ensures !Pending(h + more, |h|, id) {
      assert !Pending(h, |h|, id);
    }
  }
}
