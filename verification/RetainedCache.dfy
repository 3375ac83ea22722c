/**
 A native model context kept across the turns of one connection. A turn truncates it to the longest prefix it shares
 with the new prompt, or replaces it when it must grow, refills it in batches of changing size and samples greedily.
 None of this may show in the tokens generated.
 */
module RetainedCache {
  import opened Unicode
  import opened Numerals

  const VOCABULARY := 151936
  const MAX_BATCH := 128
  const PROMPT_TOKENS := 12288
  const NEW_TOKENS := 1024
  const MAX_CONTEXT := PROMPT_TOKENS + NEW_TOKENS

  type Token = t: int | 0 <= t < VOCABULARY

  const EOS: Token := 151645

  /** A deterministic model: the next token as a function of the decoded tokens, of the number of constrained tool
      aliases (zero for none) and of the tokens sampled since the constraint was installed. */
  type Sampler = (seq<Token>, nat, seq<Token>) -> Token

  // Reference: a generation that never reuses anything

  function Continue(f: Sampler, aliases: nat, prompt: seq<Token>, sampled: seq<Token>): (r: seq<Token>)
    requires |sampled| <= NEW_TOKENS
    ensures sampled <= r && |r| <= NEW_TOKENS
    decreases NEW_TOKENS - |sampled|
  {
    if |sampled| == NEW_TOKENS then sampled
    else
      var token := f(prompt + sampled, aliases, sampled);
      if token == EOS then sampled + [token] else Continue(f, aliases, prompt, sampled + [token])
  }

  /** What the model says to a prompt. */
  function Reply(f: Sampler, aliases: nat, prompt: seq<Token>): (r: seq<Token>)
    ensures r != []
  {
    Continue(f, aliases, prompt, [])
  }

  /** A reply stops at the first end marker or at the bound, and each token is the model's choice after those before. */
  lemma {:induction false} ReplyIsGreedy(f: Sampler, aliases: nat, prompt: seq<Token>, sampled: seq<Token>, i: nat)
    requires |sampled| <= NEW_TOKENS && |sampled| <= i < |Continue(f, aliases, prompt, sampled)|
    ensures var r := Continue(f, aliases, prompt, sampled);
            && r[i] == f(prompt + r[..i], aliases, r[..i])
            && (r[i] == EOS ==> i == |r| - 1)
            && (i == |r| - 1 ==> r[i] == EOS || |r| == NEW_TOKENS)
    decreases NEW_TOKENS - |sampled|
  {
    var r := Continue(f, aliases, prompt, sampled);
    if |sampled| == NEW_TOKENS {
    } else {
      var token := f(prompt + sampled, aliases, sampled);
      assert sampled + [token] <= r;
      if i == |sampled| {
        assert r[..i] == sampled;
        assert r[i] == token;
      }
      if token != EOS {
        if i > |sampled| {
          ReplyIsGreedy(f, aliases, prompt, sampled + [token], i);
        } else if i == |r| - 1 {
          assert r == sampled + [token];
        }
      }
    }
  }

  // What can go wrong outside

  /** The world outside as an oracle: each time something can go wrong there, a native call, a cancellation or a changed
      file, the next answer says whether it does. */
  class World {
    const faults: nat -> bool
    var clock: nat

    constructor (faults: nat -> bool)
      ensures this.faults == faults && clock == 0
    {
      this.faults, clock := faults, 0;
    }

    method Strikes() returns (fault: bool)
      modifies this
      ensures fault == faults(old(clock)) && clock == old(clock) + 1
    {
      fault := faults(clock);
      clock := clock + 1;
    }

    ghost predicate Calm(from: nat, to: nat) {
      forall i :: from <= i < to ==> !faults(i)
    }
  }

  // The native handle

  class NativeModel {
    const sampler: Sampler
    var cells: seq<Token>
    var capacity: nat
    var aliases: nat
    var sampled: seq<Token>
    var ready: bool
    var failed: bool
    var sessionActive: bool

    /** Opening can fail for reasons outside the process; then there is no handle. */
    constructor (sampler: Sampler, capacity: nat)
      ensures this.sampler == sampler && this.capacity == capacity
      ensures cells == [] && sampled == [] && aliases == 0 && !ready && !failed && !sessionActive
    {
      this.sampler, this.capacity := sampler, capacity;
      cells, sampled, aliases := [], [], 0;
      ready, failed, sessionActive := false, false, false;
    }

    /** Keep the first `retained` positions and install the turn's constraint. */
    method BeginTurn(world: World, retained: nat, aliases: nat) returns (ok: bool)
      modifies this, world
      ensures world.clock == old(world.clock) + 1
      ensures ok <==> !world.faults(old(world.clock)) && !old(failed)
                      && old(|cells| <= capacity) && retained <= old(|cells|)
                      && retained < capacity && retained < PROMPT_TOKENS && aliases <= 32
      ensures capacity == old(capacity)
      ensures ok ==> cells == old(cells)[..retained] && sampled == [] && this.aliases == aliases
                     && !ready && !failed && sessionActive
      ensures !ok ==> failed
    {
      var cancelled := world.Strikes();
      ready := false;
      ok := !cancelled && !failed && |cells| <= capacity && retained <= |cells| && retained < capacity
            && retained < PROMPT_TOKENS && aliases <= 32;
      if ok {
        cells, sampled, this.aliases, sessionActive := cells[..retained], [], aliases, true;
      } else {
        cells, failed := *, true;
      }
    }

    /** Replace the context by a larger, empty one. */
    method ReserveContext(world: World, requested: nat) returns (ok: bool)
      modifies this, world
      ensures world.clock == old(world.clock) + 1
      ensures ok <==> !world.faults(old(world.clock)) && !old(failed) && old(sessionActive) && old(|cells| <= capacity)
                      && old(capacity) < requested <= MAX_CONTEXT
      ensures ok ==> cells == [] && capacity == requested && !ready && !failed && sessionActive
      ensures !ok ==> failed
    {
      var cancelled := world.Strikes();
      ready := false;
      ok := !cancelled && !failed && sessionActive && |cells| <= capacity && capacity < requested <= MAX_CONTEXT;
      if ok {
        cells, sampled, aliases, capacity := [], [], 0, requested;
      } else {
        cells, failed := *, true;
      }
    }

    /** Append a batch of tokens to the context; `elapsed` is whatever the clock says. */
    method Decode(world: World, batch: seq<Token>) returns (ok: bool, elapsed: real)
      modifies this, world
      ensures elapsed >= 0.0 && world.clock == old(world.clock) + 1
      ensures ok <==> !world.faults(old(world.clock)) && !old(failed)
                      && 1 <= |batch| <= MAX_BATCH && old(|cells|) + |batch| <= old(capacity)
                      && (old(sessionActive) && old(sampled) == [] ==> old(|cells|) + |batch| <= PROMPT_TOKENS)
      ensures capacity == old(capacity) && aliases == old(aliases) && sampled == old(sampled)
      ensures sessionActive == old(sessionActive)
      ensures ok ==> cells == old(cells) + batch && ready && !failed
      ensures !ok ==> failed
    {
      var broken := world.Strikes();
      elapsed :| elapsed >= 0.0;
      ok := !broken && !failed && 1 <= |batch| <= MAX_BATCH && |cells| + |batch| <= capacity
            && (sessionActive && sampled == [] ==> |cells| + |batch| <= PROMPT_TOKENS);
      if ok {
        cells, ready := cells + batch, true;
      } else {
        cells, ready, failed := *, false, true;
      }
    }

    /** The greedy choice after the decoded tokens; the logits it uses up must be fresh. */
    method Sample(world: World) returns (token: Option<Token>)
      modifies this, world
      ensures world.clock == old(world.clock) + 1
      ensures token.Some? <==> !world.faults(old(world.clock)) && !old(failed) && old(ready)
                               && (old(sessionActive) ==> old(|sampled|) < NEW_TOKENS
                                                          && (old(sampled) == [] ==> old(|cells|) <= PROMPT_TOKENS))
      ensures capacity == old(capacity) && aliases == old(aliases) && cells == old(cells)
      ensures sessionActive == old(sessionActive)
      ensures token.Some? ==> token.value == sampler(cells, aliases, old(sampled))
                              && sampled == old(sampled) + [token.value] && !ready && !failed
      ensures token.None? ==> failed
    {
      var broken := world.Strikes();
      if broken || failed || !ready
         || (sessionActive && !(|sampled| < NEW_TOKENS && (sampled != [] || |cells| <= PROMPT_TOKENS))) {
        ready, failed := false, true;
        return None;
      }
      var next := sampler(cells, aliases, sampled);
      sampled, ready := sampled + [next], false;
      return Some(next);
    }
  }

  // Batch sizes

  /** A zero-duration sample counts as a microsecond. */
  function ClockFloor(seconds: real): (r: real)
    requires seconds >= 0.0
    ensures r > 0.0 && r >= seconds
  {
    if seconds > 0.000001 then seconds else 0.000001
  }

  lemma FloorOfQuotient(count: nat, clock: real, estimated: int)
    requires clock > 0.0 && estimated == (count as real * (2.0 / clock)).Floor
    ensures estimated >= 0
    ensures estimated as real * clock <= 2.0 * count as real < (estimated + 1) as real * clock
  {
    var rate := count as real * (2.0 / clock);
    assert rate * clock == 2.0 * count as real;
    assert estimated as real <= rate < (estimated + 1) as real;
    assert rate >= 0.0;
  }

  lemma ProductIsMonotone(a: real, b: real, x: real, y: real)
    requires 0.0 <= a <= b && 0.0 <= x <= y
    ensures a * x <= b * y
  {
    assert a * x <= b * x;
    assert b * x <= b * y;
  }

  /** The size the batch after one of `count` tokens in `seconds` may have: at most twice that and at most 128, at most
      what two seconds allow at the measured speed unless it is a single token, and no smaller than all that calls
      for. */
  ghost predicate IsQuantum(count: nat, seconds: real, tokens: nat) {
    && seconds >= 0.0
    && 1 <= tokens <= 128 && tokens <= 2 * count
    && (tokens > 1 ==> tokens as real * seconds <= 2.0 * count as real)
    && (tokens < 128 && tokens < 2 * count ==> (tokens + 1) as real * ClockFloor(seconds) > 2.0 * count as real)
  }

  lemma ClampedIsQuantum(count: nat, seconds: real, estimated: nat, tokens: nat)
    requires count >= 1 && seconds >= 0.0 && tokens == Max(1, Min(MAX_BATCH, Min(count * 2, estimated)))
    requires estimated as real * ClockFloor(seconds) <= 2.0 * count as real
    requires 2.0 * count as real < (estimated + 1) as real * ClockFloor(seconds)
    ensures IsQuantum(count, seconds, tokens)
  {
    var clock := ClockFloor(seconds);
    if tokens > 1 {
      ProductIsMonotone(tokens as real, estimated as real, seconds, clock);
    }
    if tokens < MAX_BATCH && tokens < 2 * count {
      assert estimated <= tokens;
      ProductIsMonotone((estimated + 1) as real, (tokens + 1) as real, clock, clock);
    }
  }

  class PrefillQuantum {
    var tokens: nat

    constructor ()
      ensures tokens == 16
    {
      tokens := 16;
    }

    method Completed(count: nat, seconds: real) returns (ok: bool)
      modifies this
      ensures ok <==> 1 <= count <= MAX_BATCH && seconds >= 0.0
      ensures ok ==> IsQuantum(count, seconds, tokens)
      ensures !ok ==> tokens == old(tokens)
    {
      if !(1 <= count <= MAX_BATCH && seconds >= 0.0) {
        return false;
      }
      var clock := ClockFloor(seconds);
      var estimated := (count as real * (2.0 / clock)).Floor;
      FloorOfQuotient(count, clock, estimated);
      tokens := Max(1, Min(MAX_BATCH, Min(count * 2, estimated)));
      ClampedIsQuantum(count, seconds, estimated, tokens);
      return true;
    }
  }

  // One turn

  /** A decoded batch: its size and how long it took. */
  datatype Batch = Batch(size: nat, seconds: real)

  ghost function Decoded(batches: seq<Batch>): (n: nat) {
    if batches == [] then 0 else Decoded(batches[..|batches| - 1]) + batches[|batches| - 1].size
  }

  /** The size the next batch may have: 16 at first, then what the last measurement allows. */
  ghost predicate Allows(batches: seq<Batch>, tokens: nat) {
    if batches == [] then tokens == 16
    else IsQuantum(batches[|batches| - 1].size, batches[|batches| - 1].seconds, tokens)
  }

  /** Each batch has the size allowed to it, or is the rest of the prompt. */
  ghost predicate Paced(rest: nat, batches: seq<Batch>) {
    batches == []
    || (var before, last := batches[..|batches| - 1], batches[|batches| - 1];
        && Paced(rest, before)
        && exists tokens: nat :: Allows(before, tokens) && last.size == Min(tokens, rest - Decoded(before)))
  }

  /** So many tokens of `rest` were decoded in these batches, and the next may have `tokens`. */
  ghost predicate Pacing(rest: nat, batches: seq<Batch>, decoded: nat, tokens: nat) {
    Paced(rest, batches) && Decoded(batches) == decoded && Allows(batches, tokens)
  }

  lemma OneMoreBatch(rest: nat, batches: seq<Batch>, decoded: nat, tokens: nat, last: Batch, next: nat)
    requires Pacing(rest, batches, decoded, tokens) && last.size == Min(tokens, rest - decoded)
    requires IsQuantum(last.size, last.seconds, next)
    ensures Pacing(rest, batches + [last], decoded + last.size, next)
  {
    assert (batches + [last])[..|batches|] == batches;
  }

  /** Let a cancellation through, then decode. */
  method CheckAndDecode(world: World, model: NativeModel, batch: seq<Token>) returns (ok: bool, elapsed: real)
    requires !model.failed && model.sampled == [] && 1 <= |batch| <= MAX_BATCH
    requires |model.cells| + |batch| <= PROMPT_TOKENS && |model.cells| + |batch| <= model.capacity
    modifies model, world
    ensures old(world.clock) <= world.clock && (ok <==> world.Calm(old(world.clock), world.clock))
    ensures model.capacity == old(model.capacity) && model.sessionActive == old(model.sessionActive)
    ensures model.aliases == old(model.aliases) && model.sampled == [] && elapsed >= 0.0
    ensures ok ==> !model.failed && model.ready && model.cells == old(model.cells) + batch
    ensures !ok && !model.failed ==> model.cells == old(model.cells)
  {
    var cancelled := world.Strikes();
    if cancelled {
      return false, 0.0;
    }
    ok, elapsed := model.Decode(world, batch);
  }

  /** Decode the rest of the prompt in batches as large as the last measurement allows. */
  method Prefill(world: World, model: NativeModel, prompt: seq<Token>, retained: nat)
    returns (ok: bool, ghost batches: seq<Batch>)
    requires retained < |prompt| <= PROMPT_TOKENS && |prompt| + NEW_TOKENS <= model.capacity
    requires !model.failed && model.cells == prompt[..retained] && model.sampled == []
    modifies model, world
    ensures old(world.clock) <= world.clock && (ok <==> world.Calm(old(world.clock), world.clock))
    ensures model.capacity == old(model.capacity) && model.sessionActive == old(model.sessionActive)
    ensures model.aliases == old(model.aliases) && model.sampled == []
    ensures !model.failed ==> |model.cells| <= |prompt|
    ensures ok ==> !model.failed && model.ready && model.cells == prompt
    ensures Paced(|prompt| - retained, batches) && (ok ==> Decoded(batches) == |prompt| - retained)
  {
    var quantum := new PrefillQuantum();
    var start := retained;
    batches := [];
    while start < |prompt|
      invariant retained <= start <= |prompt| && model.cells == prompt[..start]
      invariant !model.failed && model.sampled == [] && model.aliases == old(model.aliases)
      invariant model.capacity == old(model.capacity) && model.sessionActive == old(model.sessionActive)
      invariant start == |prompt| ==> model.ready
      invariant fresh(quantum) && 1 <= quantum.tokens <= MAX_BATCH
      invariant old(world.clock) <= world.clock && world.Calm(old(world.clock), world.clock)
      invariant Pacing(|prompt| - retained, batches, start - retained, quantum.tokens)
    {
      var batch := prompt[start..Min(start + quantum.tokens, |prompt|)];
      assert prompt[..start] + batch == prompt[..start + |batch|];
      var elapsed;
      ok, elapsed := CheckAndDecode(world, model, batch);
      if !ok {
        return false, batches;
      }
      ghost var tokens := quantum.tokens;
      ok := quantum.Completed(|batch|, elapsed);
      OneMoreBatch(|prompt| - retained, batches, start - retained, tokens, Batch(|batch|, elapsed), quantum.tokens);
      batches := batches + [Batch(|batch|, elapsed)];
      start := start + |batch|;
    }
    assert prompt[..start] == prompt;
    return true, batches;
  }

  /** Let a cancellation through, then sample. */
  method CheckAndSample(world: World, model: NativeModel) returns (token: Option<Token>)
    requires !model.failed && model.ready && |model.sampled| < NEW_TOKENS
    requires model.sampled == [] ==> |model.cells| <= PROMPT_TOKENS
    modifies model, world
    ensures old(world.clock) <= world.clock && (token.Some? <==> world.Calm(old(world.clock), world.clock))
    ensures model.capacity == old(model.capacity) && model.aliases == old(model.aliases)
    ensures model.cells == old(model.cells) && model.sessionActive == old(model.sessionActive)
    ensures token.Some? ==> token.value == model.sampler(model.cells, model.aliases, old(model.sampled))
                            && model.sampled == old(model.sampled) + [token.value] && !model.failed
  {
    var cancelled := world.Strikes();
    if cancelled {
      return None;
    }
    token := model.Sample(world);
  }

  /** Sample until the end marker or the bound, decoding each token but the last. */
  method SampleReply(world: World, model: NativeModel, prompt: seq<Token>) returns (r: Option<seq<Token>>)
    requires |prompt| <= PROMPT_TOKENS && |prompt| + NEW_TOKENS <= model.capacity
    requires !model.failed && model.ready && model.cells == prompt && model.sampled == []
    modifies model, world
    ensures old(world.clock) <= world.clock && (r.Some? <==> world.Calm(old(world.clock), world.clock))
    ensures model.capacity == old(model.capacity) && model.sessionActive == old(model.sessionActive)
    ensures !model.failed ==> |model.cells| <= model.capacity
    ensures r.Some? ==> r.value == Reply(model.sampler, old(model.aliases), prompt)
    ensures r.Some? ==> !model.failed && model.cells == prompt + r.value[..|r.value| - 1]
  {
    ghost var reply := Reply(model.sampler, model.aliases, prompt);
    var generated: seq<Token> := [];
    assert prompt + generated == prompt;
    while |generated| < NEW_TOKENS
      invariant |generated| <= NEW_TOKENS && model.sampled == generated
      invariant model.capacity == old(model.capacity) && model.aliases == old(model.aliases)
      invariant model.sessionActive == old(model.sessionActive)
      invariant !model.failed && Continue(model.sampler, model.aliases, prompt, generated) == reply
      invariant |generated| < NEW_TOKENS ==> model.ready && model.cells == prompt + generated
      invariant |generated| == NEW_TOKENS ==> model.cells == prompt + generated[..|generated| - 1]
      invariant old(world.clock) <= world.clock && world.Calm(old(world.clock), world.clock)
    {
      var token := CheckAndSample(world, model);
      if token.None? {
        return None;
      }
      ghost var before := generated;
      generated := generated + [token.value];
      assert generated[..|generated| - 1] == before;
      if token.value == EOS {
        break;
      }
      if |generated| < NEW_TOKENS {
        var decoded, elapsed := model.Decode(world, [token.value]);
        if !decoded {
          assert world.faults(world.clock - 1);
          return None;
        }
        assert prompt + before + [token.value] == prompt + generated;
      }
    }
    return Some(generated);
  }

  /** Refill the context from `retained` on, then sample. A fault outside makes it fail and nothing else does, and
      neither the reused prefix nor the batch sizes show in the result. */
  method Generate(world: World, model: NativeModel, prompt: seq<Token>, retained: nat) returns (r: Option<seq<Token>>)
    requires retained < |prompt| <= PROMPT_TOKENS && |prompt| + NEW_TOKENS <= model.capacity
    requires !model.failed && model.cells == prompt[..retained] && model.sampled == []
    modifies model, world
    ensures old(world.clock) <= world.clock && (r.Some? <==> world.Calm(old(world.clock), world.clock))
    ensures model.capacity == old(model.capacity) && model.sessionActive == old(model.sessionActive)
    ensures !model.failed ==> |model.cells| <= model.capacity
    ensures r.Some? ==> r.value == Reply(model.sampler, old(model.aliases), prompt)
    ensures r.Some? ==> !model.failed && model.cells == prompt + r.value[..|r.value| - 1]
  {
    ghost var batches;
    var prefilled;
    prefilled, batches := Prefill(world, model, prompt, retained);
    if !prefilled {
      return None;
    }
    r := SampleReply(world, model, prompt);
  }

  /** Without retention: a context of its own, the whole prompt, then closed. */
  method ExecuteFresh(world: World, f: Sampler, prompt: seq<Token>, aliases: nat) returns (r: Option<seq<Token>>)
    modifies world
    ensures old(world.clock) <= world.clock
    ensures r.Some? <==> world.Calm(old(world.clock), world.clock) && 1 <= |prompt| <= PROMPT_TOKENS
    ensures r.Some? ==> r.value == Reply(f, aliases, prompt)
  {
    var unavailable := world.Strikes();
    if unavailable || !(1 <= |prompt| <= PROMPT_TOKENS) {
      return None;
    }
    var model := new NativeModel(f, |prompt| + NEW_TOKENS);
    model.aliases := aliases;
    r := Generate(world, model, prompt, 0);
  }

  // Retention

  /** What a request asks of the retained model: which bundle, whether it supports sessions, the prompt, the aliases. */
  datatype Request =
    Request(id: int, turn: nat, session: int, bundle: int, supported: bool, prompt: seq<Token>, aliases: nat)

  predicate ValidRequest(q: Request) {
    q.supported && 1 <= |q.prompt| <= PROMPT_TOKENS && q.aliases <= 32
  }

  /** Context size for a prompt: the least multiple of the native padding that holds it and the reply. */
  function Padded(prompt: seq<Token>): (n: nat)
    requires |prompt| <= PROMPT_TOKENS
    ensures n % 256 == 0 && n - 256 < |prompt| + 1024 <= n <= MAX_CONTEXT
  {
    (|prompt| + NEW_TOKENS + 255) / 256 * 256
  }

  /** `n` is the length of the longest prefix the retained tokens share with the prompt short of its last token. */
  predicate SharedPrefix(kept: seq<Token>, prompt: seq<Token>, n: nat) {
    && n <= |kept| && n < |prompt|
    && kept[..n] == prompt[..n]
    && (n == |kept| || n == |prompt| - 1 || kept[n] != prompt[n])
  }

  /** So no longer one is shared. */
  lemma SharedPrefixIsLongest(kept: seq<Token>, prompt: seq<Token>, n: nat, m: nat)
    requires SharedPrefix(kept, prompt, n) && n < m <= |kept| && m < |prompt|
    ensures kept[..m] != prompt[..m]
  {
    assert kept[..m][n] == kept[n] && prompt[..m][n] == prompt[n];
  }

  method CommonPrefix(kept: seq<Token>, prompt: seq<Token>) returns (n: nat)
    requires prompt != []
    ensures SharedPrefix(kept, prompt, n)
  {
    n := 0;
    while n < |kept| && n < |prompt| - 1 && kept[n] == prompt[n]
      invariant n <= |kept| && n < |prompt| && kept[..n] == prompt[..n]
    {
      n := n + 1;
    }
  }

  class RetainedModel {
    /** The model each verified bundle holds. */
    const weights: int -> Sampler
    var model: NativeModel?
    var binding: Option<int>
    var tokens: seq<Token>
    var capacity: nat
    var failed: bool

    constructor (weights: int -> Sampler)
      ensures Valid() && this.weights == weights && model == null && !failed
    {
      this.weights := weights;
      model, binding, tokens, capacity, failed := null, None, [], 0, false;
    }

    /** The tokens that authorise reuse are exactly what the context holds. */
    ghost predicate Valid()
      reads this, model
    {
      && (model == null ==> binding.None? && tokens == [] && capacity == 0)
      && (model != null ==>
            && !failed
            && binding.Some? && model.sampler == weights(binding.value)
            && model.capacity == capacity <= MAX_CONTEXT
            && (!model.failed ==> model.sessionActive && |model.cells| <= capacity)
            && (tokens != [] ==> !model.failed && model.cells == tokens))
    }

    method Close()
      modifies this
      ensures model == null && binding.None? && tokens == [] && capacity == 0 && failed == old(failed)
    {
      model, binding, tokens, capacity := null, None, [], 0;
    }

    /** The request is let in: no failure for good, the bound bundle, a prompt in bounds. */
    ghost predicate Admits(q: Request)
      reads this
    {
      !failed && q.supported && (binding.Some? ==> binding.value == q.bundle) && 1 <= |q.prompt| <= PROMPT_TOKENS
    }

    /** Prepare the context for a prompt. On success it holds exactly a prefix of the prompt, the longest it shares with
        the retained tokens wherever the context need not grow; and the authority to reuse it is withdrawn until the
        turn commits. A request that is not let in changes nothing; any later failure ends the model for good. */
    method Begin(world: World, q: Request) returns (prefix: Option<nat>)
      requires Valid()
      modifies this, model, world
      ensures Valid() && old(world.clock) <= world.clock
      ensures model == old(model) || model == null || fresh(model)
      ensures prefix.Some? <==> old(Admits(q)) && q.aliases <= 32 && (old(model) != null ==> !old(model.failed))
                                && world.Calm(old(world.clock), world.clock)
      ensures prefix.Some? ==>
                && model != null && !model.failed && model.sampler == weights(q.bundle)
                && prefix.value < |q.prompt| && |q.prompt| + NEW_TOKENS <= capacity
                && model.cells == q.prompt[..prefix.value] && model.sampled == [] && model.aliases == q.aliases
                && tokens == [] && binding == Some(q.bundle)
      ensures prefix.Some? ==>
                if old(model) != null && Padded(q.prompt) <= old(capacity)
                then model == old(model) && capacity == old(capacity)
                     && SharedPrefix(old(tokens), q.prompt, prefix.value)
                else prefix.value == 0 && capacity == Padded(q.prompt) && (old(model) != null ==> model == old(model))
      ensures prefix.None? && old(Admits(q)) ==> failed && model == null && tokens == []
      ensures !old(Admits(q)) ==> tokens == old(tokens) && model == old(model) && failed == old(failed)
                                  && binding == old(binding) && capacity == old(capacity)
                                  && (model != null ==> unchanged(model))
    {
      if failed || !q.supported || (binding.Some? && binding.value != q.bundle)
         || !(1 <= |q.prompt| <= PROMPT_TOKENS) {
        return None;
      }
      var needed := Padded(q.prompt);
      var previous := tokens;
      tokens := [];
      var shared, ok := 0, true;
      if model == null {
        var unavailable := world.Strikes();
        if unavailable {
          failed := true;
          Close();
          return None;
        }
        model := new NativeModel(weights(q.bundle), needed);
        binding, capacity := Some(q.bundle), needed;
      } else if needed > capacity {
        ok := model.ReserveContext(world, needed);
        if ok {
          capacity := needed;
        }
      } else {
        shared := CommonPrefix(previous, q.prompt);
      }
      if ok {
        ok := model.BeginTurn(world, shared, q.aliases);
      }
      if !ok {
        failed := true;
        Close();
        return None;
      }
      assert q.prompt[..shared] == model.cells;
      return Some(shared);
    }
  }

  /** One turn: prepare, generate, verify, and only then authorise the decoded tokens for the next turn. It succeeds
      exactly when the request is let in, the model is sound and nothing goes wrong outside. */
  method Execute(world: World, retained: RetainedModel, q: Request) returns (r: Option<seq<Token>>)
    requires retained.Valid()
    modifies retained, retained.model, world
    ensures retained.Valid() && old(world.clock) <= world.clock
    ensures retained.model == old(retained.model) || retained.model == null || fresh(retained.model)
    ensures r.Some? <==> old(retained.Admits(q)) && q.aliases <= 32
                         && (old(retained.model) != null ==> !old(retained.model.failed))
                         && world.Calm(old(world.clock), world.clock)
    ensures r.Some? ==> r.value == Reply(retained.weights(q.bundle), q.aliases, q.prompt)
    ensures r.Some? ==> retained.model != null && retained.binding == Some(q.bundle) && !retained.model.failed
                        && retained.model.cells == q.prompt + r.value[..|r.value| - 1] == retained.tokens
    ensures r.None? ==> retained.tokens == if old(retained.Admits(q)) then [] else old(retained.tokens)
  {
    var prefix := retained.Begin(world, q);
    if prefix.None? {
      return None;
    }
    r := Generate(world, retained.model, q.prompt, prefix.value);
    if r.None? {
      return None;
    }
    var changed := world.Strikes();
    if changed {
      return None;
    }
    retained.tokens := q.prompt + r.value[..|r.value| - 1];
  }

  // A whole session

  /** The requests a session serves: numbered from one, with fresh identities, one session binding and one bundle. */
  predicate ValidSession(qs: seq<Request>) {
    && |qs| <= 128
    && (forall i :: 0 <= i < |qs| ==> ValidRequest(qs[i]) && qs[i].turn == i + 1)
    && (forall i, j :: 0 <= i < j < |qs| ==> qs[i].id != qs[j].id && qs[i].session == qs[j].session
                                             && qs[i].bundle == qs[j].bundle)
  }

  /** Every reply is that of a context that never saw another turn. */
  ghost predicate Answers(weights: int -> Sampler, qs: seq<Request>, replies: seq<seq<Token>>) {
    && |replies| <= |qs|
    && forall i :: 0 <= i < |replies| ==> replies[i] == Reply(weights(qs[i].bundle), qs[i].aliases, qs[i].prompt)
  }

  lemma OneMoreAnswer(weights: int -> Sampler, qs: seq<Request>, replies: seq<seq<Token>>, reply: seq<Token>)
    requires Answers(weights, qs, replies) && |replies| < |qs|
    requires var q := qs[|replies|]; reply == Reply(weights(q.bundle), q.aliases, q.prompt)
    ensures Answers(weights, qs, replies + [reply])
  {
  }

  /** Between turns the context is bound to the bundle of the turn before. */
  ghost predicate Ready(retained: RetainedModel, qs: seq<Request>, turn: nat)
    requires turn <= |qs|
    reads retained, retained.model
  {
    && retained.Valid() && !retained.failed && (retained.model == null <==> turn == 0)
    && (turn > 0 ==> !retained.model.failed && retained.binding == Some(qs[turn - 1].bundle))
  }

  /** What the next request must be for the session to go on. */
  predicate IsNext(qs: seq<Request>, turn: nat)
    requires turn < |qs|
  {
    var q := qs[turn];
    && turn < 128 && q.turn == turn + 1 && q.session == qs[0].session && ValidRequest(q)
    && (forall i :: 0 <= i < turn ==> qs[i].id != q.id)
    && (turn > 0 ==> qs[turn - 1].bundle == q.bundle)
  }

  /** A session is valid as far as each request may come next. */
  lemma {:induction false} ValidIsStepwise(qs: seq<Request>, n: nat)
    requires n < |qs|
    ensures ValidSession(qs[..n + 1]) <==> ValidSession(qs[..n]) && IsNext(qs, n)
  {
    var more, before := qs[..n + 1], qs[..n];
    assert forall i :: 0 <= i < n ==> more[i] == before[i] == qs[i];
    assert more[n] == qs[n];
    if ValidSession(more) {
      assert ValidRequest(more[n]);
      forall i | 0 <= i < n ensures qs[i].id != qs[n].id {
        assert more[i].id != more[n].id;
      }
      if n > 0 {
        assert more[0].session == more[n].session && more[n - 1].bundle == more[n].bundle;
      }
    }
    if ValidSession(before) && IsNext(qs, n) {
      forall i | 0 <= i < n
        ensures more[i].id != more[n].id && more[i].session == more[n].session && more[i].bundle == more[n].bundle
      {
        assert i < n - 1 ==> before[i].bundle == before[n - 1].bundle;
        assert 0 < i ==> before[0].session == before[i].session;
      }
    }
  }

  /** One turn of a session: the checks on the request, and then the turn itself. */
  method RunTurn(world: World, retained: RetainedModel, qs: seq<Request>, turn: nat, seen: set<int>)
    returns (reply: Option<seq<Token>>)
    requires turn < |qs| && Ready(retained, qs, turn) && seen == set i | 0 <= i < turn :: qs[i].id
    modifies retained, retained.model, world
    ensures retained.model == old(retained.model) || retained.model == null || fresh(retained.model)
    ensures old(world.clock) <= world.clock
    ensures reply.Some? <==> IsNext(qs, turn) && world.Calm(old(world.clock), world.clock)
    ensures reply.Some? ==> Ready(retained, qs, turn + 1)
    ensures var q := qs[turn]; reply.Some? ==> reply.value == Reply(retained.weights(q.bundle), q.aliases, q.prompt)
  {
    var q := qs[turn];
    if turn + 1 > 128 || q.turn != turn + 1 || q.id in seen || q.session != qs[0].session {
      return None;
    }
    reply := Execute(world, retained, q);
  }

  /** Cache transparency: whatever the prompts share, grow or diverge, every reply of a session is the reply of a
      context that never saw another turn; and with nothing going wrong outside, the session goes on exactly as long as
      its requests are valid. */
  method RunSession(world: World, weights: int -> Sampler, qs: seq<Request>) returns (replies: seq<seq<Token>>)
    modifies world
    ensures Answers(weights, qs, replies) && old(world.clock) <= world.clock
    ensures ValidSession(qs[..|replies|])
    ensures world.Calm(old(world.clock), world.clock) ==>
              |replies| == |qs| || !ValidSession(qs[..|replies| + 1])
    ensures |replies| == |qs| ==> world.Calm(old(world.clock), world.clock)
  {
    replies := [];
    var retained := new RetainedModel(weights);
    var seen: set<int> := {};
    var turn := 0;
    while turn < |qs|
      invariant 0 <= turn == |replies| <= |qs| && Answers(weights, qs, replies) && ValidSession(qs[..turn])
      invariant fresh(retained) && retained.weights == weights && Ready(retained, qs, turn)
      invariant retained.model == null || fresh(retained.model)
      invariant seen == set i | 0 <= i < turn :: qs[i].id
      invariant old(world.clock) <= world.clock && world.Calm(old(world.clock), world.clock)
    {
      ValidIsStepwise(qs, turn);
      var reply := RunTurn(world, retained, qs, turn, seen);
      if reply.None? {
        return;
      }
      OneMoreAnswer(weights, qs, replies, reply.value);
      replies, seen, turn := replies + [reply.value], seen + {qs[turn].id}, turn + 1;
    }
  }
}
