/** The walk over the tokenizer trie that turns the character automata into a set of allowed tokens. */
module TokenTrie {
  import opened Unicode
  import opened GraphRules
  import opened GraphLanguage
  import opened GraphLiveness
  import opened GraphRuns

  /** A trie node: the tokens spelled by the path to it, and one edge per next character. */
  datatype Trie = Trie(tokens: seq<nat>, children: seq<Edge>)

  datatype Edge = Edge(letter: Code, child: Trie)

  /** The pinned JSON syntax parser behind the graph rules: any deterministic automaton. */
  datatype Syntax<!S> = Syntax(allows: (S, Code) -> bool, step: (S, Code) -> S)

  // Specification: every spelled token, filtered by its whole string

  function Under(letter: Code, entries: seq<(Text, nat)>): (r: seq<(Text, nat)>) {
    if entries == [] then [] else [([letter] + entries[0].0, entries[0].1)] + Under(letter, entries[1..])
  }

  function Here(tokens: seq<nat>): (r: seq<(Text, nat)>) {
    if tokens == [] then [] else [([], tokens[0])] + Here(tokens[1..])
  }

  /** The strings and tokens the trie holds, in traversal order. */
  function Entries(t: Trie): (r: seq<(Text, nat)>)
    decreases t, 1
  {
    Here(t.tokens) + EdgeEntries(t.children)
  }

  function EdgeEntries(es: seq<Edge>): (r: seq<(Text, nat)>)
    decreases es, 0
  {
    if es == [] then [] else EdgeEntry(es[0]) + EdgeEntries(es[1..])
  }

  function EdgeEntry(e: Edge): (r: seq<(Text, nat)>)
    decreases e, 0
  {
    Under(e.letter, Entries(e.child))
  }

  /** Both automata accept the whole string, character by character. */
  predicate Admits<S>(syntax: Syntax<S>, inner: S, rules: Rules, w: Text)
    requires Ready(rules)
    decreases |w|
  {
    w == [] || (&& syntax.allows(inner, w[0])
                && Advance(rules, w[0]).Some?
                && Admits(syntax, syntax.step(inner, w[0]), Advance(rules, w[0]).value, w[1..]))
  }

  /** Brute force: test every entry on its own. */
  function Admitted<S>(syntax: Syntax<S>, inner: S, rules: Rules, entries: seq<(Text, nat)>): (r: seq<nat>)
    requires Ready(rules)
  {
    if entries == [] then []
    else (if Admits(syntax, inner, rules, entries[0].0) then [entries[0].1] else [])
         + Admitted(syntax, inner, rules, entries[1..])
  }

  lemma {:induction false} AdmittedConcat<S>(
      syntax: Syntax<S>, inner: S, rules: Rules, a: seq<(Text, nat)>, b: seq<(Text, nat)>)
    requires Ready(rules)
    ensures Admitted(syntax, inner, rules, a + b)
         == Admitted(syntax, inner, rules, a) + Admitted(syntax, inner, rules, b)
  {
    if a == [] {
      assert a + b == b;
    } else {
      assert (a + b)[1..] == a[1..] + b;
      AdmittedConcat(syntax, inner, rules, a[1..], b);
    }
  }

  lemma {:induction false} AdmittedHere<S>(syntax: Syntax<S>, inner: S, rules: Rules, tokens: seq<nat>)
    requires Ready(rules)
    ensures Admitted(syntax, inner, rules, Here(tokens)) == tokens
  {
    if tokens == [] {
    } else {
      AdmittedHere(syntax, inner, rules, tokens[1..]);
      assert Here(tokens)[1..] == Here(tokens[1..]);
    }
  }

  /** Below an edge, the survivors are those of the child after one step, or none. */
  lemma {:induction false} AdmittedUnder<S>(
      syntax: Syntax<S>, inner: S, rules: Rules, letter: Code, entries: seq<(Text, nat)>)
    requires Ready(rules)
    ensures Admitted(syntax, inner, rules, Under(letter, entries))
         == if syntax.allows(inner, letter) && Advance(rules, letter).Some?
            then Admitted(syntax, syntax.step(inner, letter), Advance(rules, letter).value, entries)
            else []
    decreases |entries|
  {
    if entries == [] {
    } else {
      AdmittedUnder(syntax, inner, rules, letter, entries[1..]);
      var word := [letter] + entries[0].0;
      assert word[1..] == entries[0].0;
      assert Under(letter, entries)[1..] == Under(letter, entries[1..]);
    }
  }

  /** The tokens below an edge that survive. */
  ghost function Survivors<S>(syntax: Syntax<S>, inner: S, rules: Rules, edge: Edge): (r: seq<nat>)
    requires Ready(rules)
  {
    if syntax.allows(inner, edge.letter) && Advance(rules, edge.letter).Some?
    then Admitted(syntax, syntax.step(inner, edge.letter), Advance(rules, edge.letter).value, Entries(edge.child))
    else []
  }

  /** What the walk owes for the edges from the `i`-th on. */
  ghost function Owed<S>(syntax: Syntax<S>, inner: S, rules: Rules, node: Trie, i: nat): (r: seq<nat>)
    requires Ready(rules) && i <= |node.children|
  {
    Admitted(syntax, inner, rules, EdgeEntries(node.children[i..]))
  }

  /** The `i`-th edge pays its part of it. */
  lemma OneEdgePays<S>(syntax: Syntax<S>, inner: S, rules: Rules, node: Trie, i: nat, paid: seq<nat>)
    requires Ready(rules) && i < |node.children|
    ensures paid + Owed(syntax, inner, rules, node, i)
         == (paid + Survivors(syntax, inner, rules, node.children[i])) + Owed(syntax, inner, rules, node, i + 1)
  {
    var es, edge := node.children[i..], node.children[i];
    assert es[0] == edge && es[1..] == node.children[i + 1..];
    AdmittedConcat(syntax, inner, rules, EdgeEntry(edge), EdgeEntries(es[1..]));
    AdmittedUnder(syntax, inner, rules, edge.letter, Entries(edge.child));
  }

  lemma AllIsOwed<S>(syntax: Syntax<S>, inner: S, rules: Rules, node: Trie)
    requires Ready(rules)
    ensures Admitted(syntax, inner, rules, Entries(node)) == node.tokens + Owed(syntax, inner, rules, node, 0)
    ensures Owed(syntax, inner, rules, node, |node.children|) == []
  {
    AdmittedHere(syntax, inner, rules, node.tokens);
    AdmittedConcat(syntax, inner, rules, Here(node.tokens), EdgeEntries(node.children));
    assert node.children[0..] == node.children;
  }

  /** The pruned traversal: it descends an edge only if both automata admit its character, and appends
      to the accumulator exactly what going through every token with its whole string would select. */
  method CollectAllowedTokens<S>(syntax: Syntax<S>, inner: S, rules: Rules, node: Trie, allowed: seq<nat>)
    returns (result: seq<nat>)
    requires Ready(rules)
    ensures result == allowed + Admitted(syntax, inner, rules, Entries(node))
    decreases node
  {
    result := allowed + node.tokens;
    AllIsOwed(syntax, inner, rules, node);
    ghost var whole := allowed + Admitted(syntax, inner, rules, Entries(node));
    for i := 0 to |node.children|
      invariant result + Owed(syntax, inner, rules, node, i) == whole
    {
      var edge := node.children[i];
      OneEdgePays(syntax, inner, rules, node, i, result);
      AllowsIsAdvance(rules, edge.letter);
      if syntax.allows(inner, edge.letter) && Allows(rules, edge.letter) {
        result := CollectAllowedTokens(syntax, syntax.step(inner, edge.letter), Advance(rules, edge.letter).value,
                                       edge.child, result);
      } else {
        assert result == result + Survivors(syntax, inner, rules, edge);
      }
    }
  }

  /** A token is selected if and only if one of its spellings in the trie is admitted. */
  lemma {:induction false} SelectedIffAdmitted<S>(
      syntax: Syntax<S>, inner: S, rules: Rules, entries: seq<(Text, nat)>, token: nat)
    requires Ready(rules)
    ensures token in Admitted(syntax, inner, rules, entries)
       <==> exists w :: (w, token) in entries && Admits(syntax, inner, rules, w)
    decreases |entries|
  {
    if entries == [] {
    } else {
      SelectedIffAdmitted(syntax, inner, rules, entries[1..], token);
      assert entries == [entries[0]] + entries[1..];
      if w :| (w, token) in entries[1..] && Admits(syntax, inner, rules, w) {
        assert (w, token) in entries;
      }
      if entries[0].1 == token && Admits(syntax, inner, rules, entries[0].0) {
        assert (entries[0].0, token) in entries;
      }
    }
  }

  /** An empty mask before the graph is complete is the syntax parser's doing: with a token for each printable ASCII
      character, the rules admit some of them, and an arbitrary parser must have refused every one. */
  lemma SomeTokenIsAllowed<S(!new)>(
      syntax: Syntax<S>, inner: S, goal: Text, requirement: bool, maxBytes: nat, w: Text, node: Trie)
    requires maxBytes >= 2 && Run(Fresh(goal, requirement, maxBytes), w).Some?
    requires !Run(Fresh(goal, requirement, maxBytes), w).value.phase.Done?
    requires forall c: Code :: IsPrintable(c) ==> exists token :: ([c], token) in Entries(node)
    ensures var s := Run(Fresh(goal, requirement, maxBytes), w).value;
      && (exists c: Code :: IsPrintable(c) && Advance(s, c).Some?)
      && (Admitted(syntax, inner, s, Entries(node)) == [] ==>
            forall c: Code :: IsPrintable(c) && Advance(s, c).Some? ==> !syntax.allows(inner, c))
  {
    var s := Run(Fresh(goal, requirement, maxBytes), w).value;
    var way := PrintableWayOn(goal, requirement, maxBytes, w);
    forall c: Code | IsPrintable(c) && Advance(s, c).Some? && syntax.allows(inner, c)
      ensures Admitted(syntax, inner, s, Entries(node)) != []
    {
      var token :| ([c], token) in Entries(node);
      assert [c][1..] == [];
      assert Admits(syntax, inner, s, [c]);
      SelectedIffAdmitted(syntax, inner, s, Entries(node), token);
    }
  }
}
