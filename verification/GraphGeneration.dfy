/** The parts joined: an attempt whose mask is the trie walk over the graph rules generates only prefixes of graphs
    under contract, and ends only on a whole one. */
module GraphGeneration {
  import opened Unicode
  import opened GraphRules
  import opened GraphLanguage
  import opened GraphRuns
  import opened TokenTrie
  import opened Attempt

  /** What an enforcer is built from: the syntax parser and its first state, the tokenizer trie with the text of each
      token, and the contract. */
  datatype Setup<!S> = Setup(
    syntax: Syntax<S>,
    initial: S,
    ends: S -> bool,
    root: Trie,
    text: int -> Text,
    goal: Text,
    requirement: bool,
    maxBytes: nat
  )

  function Written(text: int -> Text, tokens: seq<int>): (w: Text) {
    if tokens == [] then [] else Written(text, tokens[..|tokens| - 1]) + text(tokens[|tokens| - 1])
  }

  function SyntaxAfter<S>(syntax: Syntax<S>, inner: S, w: Text): (r: S) {
    if w == [] then inner else SyntaxAfter(syntax, syntax.step(inner, w[0]), w[1..])
  }

  function Offer<S>(g: Setup<S>, eos: int, rules: Rules, inner: S): (r: seq<int>)
    requires Ready(rules)
  {
    Admitted(g.syntax, inner, rules, Entries(g.root)) + if rules.phase.Done? && g.ends(inner) then [eos] else []
  }

  /** The tokens the enforcer allows after a prompt and what was generated since, or None where it raises. */
  function Mask<S>(g: Setup<S>, eos: int, prompt: seq<int>, sent: seq<int>): (r: Option<seq<int>>) {
    if !(prompt <= sent) then None
    else
      var w := Written(g.text, sent[|prompt|..]);
      match Run(Fresh(g.goal, g.requirement, g.maxBytes), w)
      case None => None
      case Some(rules) =>
        var offer := Offer(g, eos, rules, SyntaxAfter(g.syntax, g.initial, w));
        if offer == [] then None else Some(offer)
  }

  ghost predicate Enforces<S>(d: Decoder, g: Setup<S>, prompt: seq<int>) {
    forall sent :: d.mask(sent) == Mask(g, d.eos, prompt, sent)
  }

  /** The trie lists each token under its text, and not the end marker. */
  predicate IsFaithful<S>(g: Setup<S>, eos: int) {
    forall i :: 0 <= i < |Entries(g.root)| ==>
      Entries(g.root)[i].0 == g.text(Entries(g.root)[i].1) && Entries(g.root)[i].1 != eos
  }

  ghost predicate Viable<S>(g: Setup<S>, w: Text) {
    exists rest, ts :: Spells(g.goal, g.requirement, g.maxBytes, w + rest, ts)
  }

  ghost predicate Whole<S>(g: Setup<S>, w: Text) {
    exists ts :: Spells(g.goal, g.requirement, g.maxBytes, w, ts)
  }

  lemma {:induction false} AdmittedTextRuns<S>(syntax: Syntax<S>, inner: S, rules: Rules, w: Text)
    requires Ready(rules) && Admits(syntax, inner, rules, w)
    ensures Run(rules, w).Some?
    decreases |w|
  {
    if w == [] {
    } else {
      AdmittedTextRuns(syntax, syntax.step(inner, w[0]), Advance(rules, w[0]).value, w[1..]);
    }
  }

  /** An offered token keeps the text a prefix of some graph. */
  lemma OfferedStaysViable<S>(g: Setup<S>, eos: int, w: Text, token: int)
    requires g.maxBytes >= 2 && IsFaithful(g, eos) && token != eos
    requires Run(Fresh(g.goal, g.requirement, g.maxBytes), w).Some?
    requires token in Offer(g, eos, Run(Fresh(g.goal, g.requirement, g.maxBytes), w).value,
                            SyntaxAfter(g.syntax, g.initial, w))
    ensures Viable(g, w + g.text(token))
  {
    var fresh' := Fresh(g.goal, g.requirement, g.maxBytes);
    var rules, inner := Run(fresh', w).value, SyntaxAfter(g.syntax, g.initial, w);
    assert token in Admitted(g.syntax, inner, rules, Entries(g.root));
    SelectedIffAdmitted(g.syntax, inner, rules, Entries(g.root), token);
    var word :| (word, token) in Entries(g.root) && Admits(g.syntax, inner, rules, word);
    assert word == g.text(token);
    AdmittedTextRuns(g.syntax, inner, rules, word);
    RunConcat(fresh', w, word);
    PrefixesAreViable(g.goal, g.requirement, g.maxBytes, w + word);
  }

  lemma NeverInTrie<S>(g: Setup<S>, eos: int, rules: Rules, inner: S)
    requires IsFaithful(g, eos) && Ready(rules)
    ensures eos !in Admitted(g.syntax, inner, rules, Entries(g.root))
  {
    if eos in Admitted(g.syntax, inner, rules, Entries(g.root)) {
      SelectedIffAdmitted(g.syntax, inner, rules, Entries(g.root), eos);
    }
  }

  /** The end marker is offered only over a whole graph. */
  lemma EndIsWhole<S>(g: Setup<S>, eos: int, w: Text)
    requires IsFaithful(g, eos) && Run(Fresh(g.goal, g.requirement, g.maxBytes), w).Some?
    requires eos in Offer(g, eos, Run(Fresh(g.goal, g.requirement, g.maxBytes), w).value,
                          SyntaxAfter(g.syntax, g.initial, w))
    ensures Whole(g, w)
  {
    var rules, inner := Run(Fresh(g.goal, g.requirement, g.maxBytes), w).value, SyntaxAfter(g.syntax, g.initial, w);
    NeverInTrie(g, eos, rules, inner);
    LanguageIsContract(g.goal, g.requirement, g.maxBytes, w);
  }

  // The mask, exactly

  predicate SyntaxTakes<S>(syntax: Syntax<S>, inner: S, w: Text)
    decreases |w|
  {
    w == [] || (syntax.allows(inner, w[0]) && SyntaxTakes(syntax, syntax.step(inner, w[0]), w[1..]))
  }

  lemma {:induction false} AdmitsIsBoth<S>(syntax: Syntax<S>, inner: S, rules: Rules, w: Text)
    requires Ready(rules)
    ensures Admits(syntax, inner, rules, w) <==> SyntaxTakes(syntax, inner, w) && Run(rules, w).Some?
    decreases |w|
  {
    if w == [] {
    } else if Advance(rules, w[0]).Some? {
      AdmitsIsBoth(syntax, syntax.step(inner, w[0]), Advance(rules, w[0]).value, w[1..]);
    }
  }

  ghost predicate IsListed<S>(g: Setup<S>, token: int) {
    exists i :: 0 <= i < |Entries(g.root)| && Entries(g.root)[i].1 == token
  }

  /** What may come after `w`: the end marker over a whole graph where the syntax may end, and a listed token whose text
      the syntax takes and with which some graph under contract begins. */
  ghost predicate MayFollow<S>(g: Setup<S>, eos: int, w: Text, token: int) {
    var inner := SyntaxAfter(g.syntax, g.initial, w);
    if token == eos then Whole(g, w) && g.ends(inner)
    else IsListed(g, token) && SyntaxTakes(g.syntax, inner, g.text(token)) && Viable(g, w + g.text(token))
  }

  lemma ListedUnderText<S>(g: Setup<S>, eos: int, rules: Rules, inner: S, token: int)
    requires IsFaithful(g, eos) && Ready(rules)
    ensures token in Admitted(g.syntax, inner, rules, Entries(g.root))
       <==> IsListed(g, token) && Admits(g.syntax, inner, rules, g.text(token))
  {
    var entries := Entries(g.root);
    if token >= 0 {
      SelectedIffAdmitted(g.syntax, inner, rules, entries, token);
    }
    if IsListed(g, token) {
      var i :| 0 <= i < |entries| && entries[i].1 == token;
      assert (g.text(token), token) == entries[i];
    }
    if token in Admitted(g.syntax, inner, rules, entries) {
      var w :| (w, token) in entries && Admits(g.syntax, inner, rules, w);
      var i :| 0 <= i < |entries| && entries[i] == (w, token);
      assert w == g.text(token);
    }
  }

  lemma OfferIsExact<S>(g: Setup<S>, eos: int, w: Text, token: int, rules: Rules, inner: S)
    requires g.maxBytes >= 2 && IsFaithful(g, eos)
    requires Run(Fresh(g.goal, g.requirement, g.maxBytes), w) == Some(rules)
    requires inner == SyntaxAfter(g.syntax, g.initial, w)
    ensures token in Offer(g, eos, rules, inner) <==> MayFollow(g, eos, w, token)
  {
    if token == eos {
      NeverInTrie(g, eos, rules, inner);
      LanguageIsContract(g.goal, g.requirement, g.maxBytes, w);
    } else {
      var text := g.text(token);
      ListedUnderText(g, eos, rules, inner, token);
      AdmitsIsBoth(g.syntax, inner, rules, text);
      RunConcat(Fresh(g.goal, g.requirement, g.maxBytes), w, text);
      PrefixesAreViable(g.goal, g.requirement, g.maxBytes, w + text);
    }
  }

  /** The mask is given if and only if what was generated begins a graph under contract and something may follow; and
      then it holds everything that may, and nothing else. */
  lemma MaskIsExact<S>(g: Setup<S>, eos: int, prompt: seq<int>, sent: seq<int>)
    requires g.maxBytes >= 2 && IsFaithful(g, eos) && prompt <= sent
    ensures var mask, w := Mask(g, eos, prompt, sent), Written(g.text, sent[|prompt|..]);
      && (mask.Some? <==> Viable(g, w) && exists token :: MayFollow(g, eos, w, token))
      && (mask.Some? ==> forall token :: token in mask.value <==> MayFollow(g, eos, w, token))
  {
    var w := Written(g.text, sent[|prompt|..]);
    var run, inner := Run(Fresh(g.goal, g.requirement, g.maxBytes), w), SyntaxAfter(g.syntax, g.initial, w);
    PrefixesAreViable(g.goal, g.requirement, g.maxBytes, w);
    if run.Some? {
      var offer := Offer(g, eos, run.value, inner);
      forall token ensures token in offer <==> MayFollow(g, eos, w, token) {
        OfferIsExact(g, eos, w, token, run.value, inner);
      }
      if offer != [] {
        assert MayFollow(g, eos, w, offer[0]);
      }
    }
  }

  /** What an answered call offered was in the mask for exactly its prefix. */
  ghost predicate ComesFromMask(d: Decoder, e: Entry) {
    d.mask(e.tokens).Some? && forall t :: t in e.offered ==> t in d.mask(e.tokens).value
  }

  lemma {:induction false} LogComesFromMask(d: Decoder, prompt: seq<int>, limit: nat, calls: seq<Call>, k: nat)
    requires k < |Log(d, prompt, limit, calls)|
    ensures ComesFromMask(d, Log(d, prompt, limit, calls)[k])
    decreases |calls|
  {
    if calls == [] {
    } else {
      var before, last := calls[..|calls| - 1], calls[|calls| - 1];
      if k < |Log(d, prompt, limit, before)| {
        LogComesFromMask(d, prompt, limit, before, k);
      }
    }
  }

  /** What holds of an answered call about the text `w` generated so far. */
  ghost predicate KeepsContract<S>(d: Decoder, g: Setup<S>, e: Entry, w: Text) {
    && Viable(g, w)
    && (forall t :: t in e.offered && t != d.eos ==> Viable(g, w + g.text(t)))
    && (d.eos in e.offered ==> Whole(g, w))
  }

  lemma AnswerKeepsContract<S>(d: Decoder, g: Setup<S>, prompt: seq<int>, e: Entry)
    requires Enforces(d, g, prompt) && IsFaithful(g, d.eos) && g.maxBytes >= 2
    requires prompt <= e.tokens && ComesFromMask(d, e)
    ensures KeepsContract(d, g, e, Written(g.text, e.tokens[|prompt|..]))
  {
    var w := Written(g.text, e.tokens[|prompt|..]);
    assert d.mask(e.tokens) == Mask(g, d.eos, prompt, e.tokens);
    PrefixesAreViable(g.goal, g.requirement, g.maxBytes, w);
    forall t | t in e.offered && t != d.eos ensures Viable(g, w + g.text(t)) {
      OfferedStaysViable(g, d.eos, w, t);
    }
    if d.eos in e.offered {
      EndIsWhole(g, d.eos, w);
    }
  }

  /** Over any calls whatever: the text of every answered prefix is the beginning of a graph under contract, every token
      offered keeps it so, and the end marker is offered only over a whole graph that the independent validator took. */
  lemma GenerationKeepsContract<S>(d: Decoder, g: Setup<S>, prompt: seq<int>, limit: nat, calls: seq<Call>, k: nat)
    requires Enforces(d, g, prompt) && IsFaithful(g, d.eos) && g.maxBytes >= 2 && k < |Log(d, prompt, limit, calls)|
    ensures var e := Log(d, prompt, limit, calls)[k];
      && prompt <= e.tokens
      && KeepsContract(d, g, e, Written(g.text, e.tokens[|prompt|..]))
      && (d.eos in e.offered ==> d.Validated(e.tokens[|prompt|..]))
  {
    EveryLogIsSafe(d, prompt, limit, calls);
    LogComesFromMask(d, prompt, limit, calls, k);
    assert SafeEntry(d, prompt, limit, Log(d, prompt, limit, calls)[k]);
    AnswerKeepsContract(d, g, prompt, Log(d, prompt, limit, calls)[k]);
  }
}
