/** One constrained generation: the callback that checks each requested prefix and answers with the allowed tokens. */
module Attempt {
  import opened Unicode

  /** What the callback consults: the tokenizer's vocabulary, the mask, the exact decoding and the independent
      validator of complete outputs. `mask` is None where the enforcer raises, `raw` where decoding does. */
  datatype Decoder = Decoder(
    vocabulary: nat,
    special: set<int>,
    eos: int,
    outputLimit: nat,
    mask: seq<int> -> Option<seq<int>>,
    raw: seq<int> -> Option<seq<int>>,
    accepts: seq<int> -> bool
  ) {
    predicate InVocabulary(token: int) {
      0 <= token < vocabulary
    }

    /** The bytes of the suffix fit and the independent validator takes them for a complete graph. */
    predicate Validated(suffix: seq<int>) {
      raw(suffix).Some? && |raw(suffix).value| <= outputLimit && accepts(raw(suffix).value)
    }
  }

  /** The mutable part of an attempt: the last accepted prefix and the tokens offered for it. */
  datatype Progress = Progress(previous: Option<seq<int>>, allowed: set<int>)

  /** One call: the batch index, the tokens sent, and whether the owner's two checkpoints let it pass. */
  datatype Call = Call(batch: int, sent: seq<int>, started: bool, finished: bool)

  predicate PrefixIsValid(d: Decoder, prompt: seq<int>, limit: nat, p: Progress, call: Call) {
    && call.batch == 0
    && (forall i :: 0 <= i < |call.sent| ==> d.InVocabulary(call.sent[i]))
    && prompt <= call.sent
    && |call.sent| - |prompt| < limit
    && (forall i :: |prompt| <= i < |call.sent| ==> call.sent[i] !in d.special)
    && match p.previous
       case None => call.sent == prompt
       case Some(previous) =>
         || call.sent == previous
         || (call.sent != [] && call.sent[..|call.sent| - 1] == previous && call.sent[|call.sent| - 1] in p.allowed)
  }

  predicate MaskIsValid(d: Decoder, offered: seq<int>) {
    forall i :: 0 <= i < |offered| ==> d.InVocabulary(offered[i]) && (offered[i] in d.special ==> offered[i] == d.eos)
  }

  function WithoutEos(d: Decoder, offered: seq<int>): (r: seq<int>)
    ensures forall t :: t in r <==> t in offered && t != d.eos
    ensures |r| <= |offered|
  {
    if offered == [] then []
    else if offered[0] == d.eos then WithoutEos(d, offered[1..])
    else [offered[0]] + WithoutEos(d, offered[1..])
  }

  /** The end marker is taken out where the suffix is no complete output. */
  function Allowed(d: Decoder, offered: seq<int>, suffix: seq<int>): (r: seq<int>) {
    if d.eos in offered && !d.Validated(suffix) then WithoutEos(d, offered) else offered
  }

  /** The tokens one call answers with, or None where it raises. */
  function Answer(d: Decoder, prompt: seq<int>, limit: nat, p: Progress, call: Call): (r: Option<seq<int>>) {
    if !call.started || !PrefixIsValid(d, prompt, limit, p, call) || d.mask(call.sent).None? then None
    else
      var offered := d.mask(call.sent).value;
      var suffix := call.sent[|prompt|..];
      if !MaskIsValid(d, offered) || (d.eos in offered && d.raw(suffix).None?) then None
      else
        var allowed := Allowed(d, offered, suffix);
        if allowed == [] || !call.finished then None else Some(allowed)
  }

  class Attempt {
    const decoder: Decoder
    const prompt: seq<int>
    const limit: nat
    var previous: Option<seq<int>>
    var allowed: set<int>

    constructor (decoder: Decoder, prompt: seq<int>, limit: nat)
      ensures this.decoder == decoder && this.prompt == prompt && this.limit == limit
      ensures Now() == Progress(None, {})
    {
      this.decoder, this.prompt, this.limit := decoder, prompt, limit;
      previous, allowed := None, {};
    }

    ghost function Now(): (p: Progress)
      reads this
    {
      Progress(previous, allowed)
    }

    /** Answers, and remembers the prefix and its offer only if nothing raised. */
    method Invoke(call: Call) returns (r: Option<seq<int>>)
      modifies this
      ensures r == Answer(decoder, prompt, limit, old(Now()), call)
      ensures Now() == if r.Some? then Progress(Some(call.sent), set t | t in r.value) else old(Now())
    {
      if !call.started || !PrefixIsValid(decoder, prompt, limit, Progress(previous, allowed), call) {
        return None;
      }
      var mask := decoder.mask(call.sent);
      if mask.None? || !MaskIsValid(decoder, mask.value) {
        return None;
      }
      var offered := mask.value;
      var suffix := call.sent[|prompt|..];
      if decoder.eos in offered {
        if decoder.raw(suffix).None? {
          return None;
        }
        if !decoder.Validated(suffix) {
          offered := WithoutEos(decoder, offered);
        }
      }
      if offered == [] || !call.finished {
        return None;
      }
      previous, allowed := Some(call.sent), set t | t in offered;
      return Some(offered);
    }
  }

  // Runs: what the answered calls of an attempt look like, whatever else was tried in between

  /** An answered call: the prefix it was asked about and the tokens it offered. */
  datatype Entry = Entry(tokens: seq<int>, offered: seq<int>)

  function Follow(d: Decoder, prompt: seq<int>, limit: nat, p: Progress, call: Call): (r: Progress) {
    match Answer(d, prompt, limit, p, call)
    case Some(offered) => Progress(Some(call.sent), set t | t in offered)
    case None => p
  }

  /** The state after a sequence of calls. */
  function FollowAll(d: Decoder, prompt: seq<int>, limit: nat, calls: seq<Call>): (p: Progress) {
    if calls == [] then Progress(None, {})
    else Follow(d, prompt, limit, FollowAll(d, prompt, limit, calls[..|calls| - 1]), calls[|calls| - 1])
  }

  /** The answered calls among a sequence of calls. */
  function Log(d: Decoder, prompt: seq<int>, limit: nat, calls: seq<Call>): (log: seq<Entry>) {
    if calls == [] then []
    else
      var before := calls[..|calls| - 1];
      var last := calls[|calls| - 1];
      match Answer(d, prompt, limit, FollowAll(d, prompt, limit, before), last)
      case Some(offered) => Log(d, prompt, limit, before) + [Entry(last.sent, offered)]
      case None => Log(d, prompt, limit, before)
  }

  /** One answered call is safe: an untouched prompt, a suffix under the limit with no special token, a non-empty offer
      with no special token but the end marker, and the end marker only over a validated suffix. */
  predicate SafeEntry(d: Decoder, prompt: seq<int>, limit: nat, e: Entry) {
    && prompt <= e.tokens
    && |e.tokens| - |prompt| < limit
    && (forall i :: |prompt| <= i < |e.tokens| ==> e.tokens[i] !in d.special)
    && e.offered != []
    && (forall t :: t in e.offered ==> d.InVocabulary(t) && (t in d.special ==> t == d.eos))
    && (d.eos in e.offered ==> d.Validated(e.tokens[|prompt|..]))
  }

  /** The next answered prefix repeats the last one or extends it by one offered token. */
  predicate Extends(e: Entry, next: Entry) {
    || next.tokens == e.tokens
    || (exists t :: t in e.offered && next.tokens == e.tokens + [t])
  }

  predicate SafeLog(d: Decoder, prompt: seq<int>, limit: nat, log: seq<Entry>) {
    && (forall i :: 0 <= i < |log| ==> SafeEntry(d, prompt, limit, log[i]))
    && (log != [] ==> log[0].tokens == prompt)
    && (forall i :: 0 <= i < |log| - 1 ==> Extends(log[i], log[i + 1]))
  }

  predicate Matches(p: Progress, log: seq<Entry>) {
    if log == [] then p == Progress(None, {})
    else
      var last := log[|log| - 1];
      p == Progress(Some(last.tokens), set t | t in last.offered)
  }

  lemma AnswerIsSafe(d: Decoder, prompt: seq<int>, limit: nat, p: Progress, log: seq<Entry>, call: Call)
    requires SafeLog(d, prompt, limit, log) && Matches(p, log) && Answer(d, prompt, limit, p, call).Some?
    ensures var next := Entry(call.sent, Answer(d, prompt, limit, p, call).value);
            SafeLog(d, prompt, limit, log + [next])
  {
    var offered := d.mask(call.sent).value;
    var next := Entry(call.sent, Answer(d, prompt, limit, p, call).value);
    assert SafeEntry(d, prompt, limit, next);
    if log != [] {
      var last := log[|log| - 1];
      assert Extends(last, next) by {
        if next.tokens != last.tokens {
          var t := next.tokens[|next.tokens| - 1];
          assert t in last.offered && next.tokens == last.tokens + [t];
        }
      }
    }
  }

  /** Run safety: over any calls whatever, the answered ones form a safe log. */
  lemma {:induction false} EveryLogIsSafe(d: Decoder, prompt: seq<int>, limit: nat, calls: seq<Call>)
    ensures SafeLog(d, prompt, limit, Log(d, prompt, limit, calls))
    ensures Matches(FollowAll(d, prompt, limit, calls), Log(d, prompt, limit, calls))
    decreases |calls|
  {
    if calls == [] {
    } else {
      var before := calls[..|calls| - 1];
      EveryLogIsSafe(d, prompt, limit, before);
      var p := FollowAll(d, prompt, limit, before);
      if Answer(d, prompt, limit, p, calls[|calls| - 1]).Some? {
        AnswerIsSafe(d, prompt, limit, p, Log(d, prompt, limit, before), calls[|calls| - 1]);
      }
    }
  }

  /** The prompt first, and then the last answered prefix again or with one offered token more. */
  predicate Continues(prompt: seq<int>, log: seq<Entry>, tokens: seq<int>) {
    if log == [] then tokens == prompt
    else
      var last := log[|log| - 1];
      tokens == last.tokens || exists t :: t in last.offered && tokens == last.tokens + [t]
  }

  /** What a call must send to be answered, after the calls so far. */
  ghost predicate IsDue(d: Decoder, prompt: seq<int>, limit: nat, log: seq<Entry>, call: Call) {
    && call.started && call.finished && call.batch == 0
    && Continues(prompt, log, call.sent)
    && prompt <= call.sent && |call.sent| < |prompt| + limit
    && (forall i :: 0 <= i < |call.sent| ==> 0 <= call.sent[i] < d.vocabulary)
    && (forall i :: |prompt| <= i < |call.sent| ==> call.sent[i] !in d.special)
  }

  /** What may be offered for a suffix: all of the mask but the end marker, and that one over a suffix whose bytes are
      within the output limit and a complete graph to the independent validator. */
  predicate MayBeOffered(d: Decoder, mask: seq<int>, suffix: seq<int>, token: int) {
    && token in mask
    && (token == d.eos ==>
          match d.raw(suffix)
          case None => false
          case Some(bytes) => |bytes| <= d.outputLimit && d.accepts(bytes))
  }

  lemma OneMoreToken(last: Entry, tokens: seq<int>, t: int)
    ensures tokens == last.tokens + [t]
       <==> tokens != [] && tokens[..|tokens| - 1] == last.tokens && tokens[|tokens| - 1] == t
  {
    if tokens == last.tokens + [t] {
      assert tokens[..|tokens| - 1] == last.tokens;
    }
  }

  lemma ValidPrefixIsDue(d: Decoder, prompt: seq<int>, limit: nat, p: Progress, log: seq<Entry>, call: Call)
    requires Matches(p, log)
    ensures call.started && call.finished && PrefixIsValid(d, prompt, limit, p, call)
       <==> IsDue(d, prompt, limit, log, call)
  {
    if log != [] {
      forall t ensures call.sent == log[|log| - 1].tokens + [t]
                  <==> call.sent != [] && call.sent[..|call.sent| - 1] == log[|log| - 1].tokens
                       && call.sent[|call.sent| - 1] == t
      {
        OneMoreToken(log[|log| - 1], call.sent, t);
      }
    }
  }

  lemma AllowedIsExact(d: Decoder, mask: seq<int>, suffix: seq<int>)
    ensures forall t :: t in Allowed(d, mask, suffix) <==> MayBeOffered(d, mask, suffix, t)
    ensures Allowed(d, mask, suffix) != [] <==> exists t :: MayBeOffered(d, mask, suffix, t)
  {
    if Allowed(d, mask, suffix) != [] {
      assert MayBeOffered(d, mask, suffix, Allowed(d, mask, suffix)[0]);
    }
  }

  /** The mask names tokens, none special but the end marker; that one can be judged; and something may be offered. */
  ghost predicate IsSound(d: Decoder, mask: Option<seq<int>>, suffix: seq<int>) {
    && mask.Some?
    && (forall i :: 0 <= i < |mask.value| ==>
          0 <= mask.value[i] < d.vocabulary && (mask.value[i] in d.special ==> mask.value[i] == d.eos))
    && (d.eos in mask.value ==> d.raw(suffix).Some?)
    && exists t :: MayBeOffered(d, mask.value, suffix, t)
  }

  lemma AnswerGivenPrefix(d: Decoder, prompt: seq<int>, limit: nat, p: Progress, call: Call)
    requires prompt <= call.sent
    ensures var answer, suffix := Answer(d, prompt, limit, p, call), call.sent[|prompt|..];
      && (answer.Some? <==> call.started && call.finished && PrefixIsValid(d, prompt, limit, p, call)
                            && IsSound(d, d.mask(call.sent), suffix))
      && (answer.Some? ==> forall t :: t in answer.value <==> MayBeOffered(d, d.mask(call.sent).value, suffix, t))
  {
    if d.mask(call.sent).Some? {
      AllowedIsExact(d, d.mask(call.sent).value, call.sent[|prompt|..]);
    }
  }

  /** Every call, exactly: after any calls whatever, one is answered if and only if it is due and the mask is sound; and
      then everything that may be offered is, and nothing else. */
  lemma AnswerIsExact(d: Decoder, prompt: seq<int>, limit: nat, calls: seq<Call>, call: Call)
    ensures var answer, mask := Answer(d, prompt, limit, FollowAll(d, prompt, limit, calls), call), d.mask(call.sent);
      && (answer.Some? <==> IsDue(d, prompt, limit, Log(d, prompt, limit, calls), call)
                            && IsSound(d, mask, call.sent[|prompt|..]))
      && (answer.Some? ==>
            forall t :: t in answer.value <==> MayBeOffered(d, mask.value, call.sent[|prompt|..], t))
  {
    EveryLogIsSafe(d, prompt, limit, calls);
    ValidPrefixIsDue(d, prompt, limit, FollowAll(d, prompt, limit, calls), Log(d, prompt, limit, calls), call);
    if prompt <= call.sent {
      AnswerGivenPrefix(d, prompt, limit, FollowAll(d, prompt, limit, calls), call);
    }
  }

  /** Some answered call up to `k` was about exactly the first `n` tokens and offered the next one. */
  ghost predicate Offered(log: seq<Entry>, k: nat, tokens: seq<int>, n: nat)
    requires k < |log| && n < |tokens|
  {
    exists j :: 0 <= j <= k && log[j].tokens == tokens[..n] && tokens[n] in log[j].offered
  }

  /** Provenance: every generated token was offered by an earlier answer about exactly the prefix before it. */
  lemma {:induction false} EveryTokenWasOffered(
      d: Decoder, prompt: seq<int>, limit: nat, log: seq<Entry>, k: nat, n: nat)
    requires SafeLog(d, prompt, limit, log) && k < |log| && |prompt| <= n < |log[k].tokens|
    ensures Offered(log, k, log[k].tokens, n)
    decreases k
  {
    if k == 0 {
    } else {
      var last, tokens := log[k - 1], log[k].tokens;
      assert Extends(log[k - 1], log[k - 1 + 1]);
      if tokens == last.tokens {
        EveryTokenWasOffered(d, prompt, limit, log, k - 1, n);
        var j :| 0 <= j <= k - 1 && log[j].tokens == last.tokens[..n] && last.tokens[n] in log[j].offered;
        assert log[j].tokens == tokens[..n];
      } else {
        var t :| t in last.offered && tokens == last.tokens + [t];
        if n == |last.tokens| {
          assert tokens[..n] == last.tokens;
        } else {
          EveryTokenWasOffered(d, prompt, limit, log, k - 1, n);
          var j :| 0 <= j <= k - 1 && log[j].tokens == last.tokens[..n] && last.tokens[n] in log[j].offered;
          assert tokens[..n] == last.tokens[..n] && tokens[n] == last.tokens[n];
        }
      }
    }
  }

  /** Over any calls, each generated token was offered for exactly the prefix it extends. */
  lemma GenerationIsConstrained(d: Decoder, prompt: seq<int>, limit: nat, calls: seq<Call>, k: nat, n: nat)
    requires k < |Log(d, prompt, limit, calls)| && |prompt| <= n < |Log(d, prompt, limit, calls)[k].tokens|
    ensures Offered(Log(d, prompt, limit, calls), k, Log(d, prompt, limit, calls)[k].tokens, n)
  {
    EveryLogIsSafe(d, prompt, limit, calls);
    EveryTokenWasOffered(d, prompt, limit, Log(d, prompt, limit, calls), k, n);
  }
}
