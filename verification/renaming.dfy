/**
 * Renaming the states of a DFA through a map, as the two dict loops at the
 * end of `DFA.minimize` in dfa.py do: first every state to its block, then
 * every block to its name.
 */
module Renaming {

  import opened Wrappers
  import opened AutomataTypes
  import opened Dfas

  /** The DFA is well-formed and every one of its states has a new name. */
  predicate Covers(d: Dfa, names: map<State, State>)
  {
    WellFormed(d) && d.states <= names.Keys
  }

  /** Transitions on one symbol from states sharing a name lead to states sharing a name. */
  predicate Agreeing(delta: Moves, names: map<State, State>)
    requires forall k :: k in delta ==> k.0 in names && delta[k] in names
  {
    forall k1, k2 :: (k1 in delta && k2 in delta && k1.1 == k2.1 && names[k1.0] == names[k2.0]) ==>
      names[delta[k1]] == names[delta[k2]]
  }

  /** Every transition `(s, c) -> t` of `delta` appears in `m` as `(names[s], c) -> names[t]`, and nothing else does. */
  predicate RenamedMoves(delta: Moves, names: map<State, State>, m: Moves)
  {
    && (forall k :: k in delta ==>
         && k.0 in names && delta[k] in names
         && (names[k.0], k.1) in m && m[(names[k.0], k.1)] == names[delta[k]])
    && (forall k :: k in m ==> exists k' :: k' in delta && k'.0 in names && k == (names[k'.0], k'.1))
  }

  /**
   * `r` is `d` with its states renamed by `names`: the alphabet is kept, the
   * start and accept states are renamed, and so are the transitions.
   */
  predicate RenamedFrom(d: Dfa, names: map<State, State>, r: Dfa)
  {
    && r.alphabet == d.alphabet
    && d.start in names && r.start == names[d.start]
    && r.accept == Image(names, d.accept)
    && RenamedMoves(d.delta, names, r.delta)
  }

  /** The new names of the states of `S`: `{names[s] for s in S}`. */
  function Image(names: map<State, State>, S: set<State>): set<State>
  {
    set s | s in S && s in names :: names[s]
  }

  /** States sharing a name agree on acceptance. */
  predicate KeepsVerdicts(d: Dfa, names: map<State, State>)
  {
    forall s, t :: s in d.states && t in d.states && s in names && t in names && names[s] == names[t] ==>
      (s in d.accept <==> t in d.accept)
  }

  /**
   * The dict loops over `transition.items()`: each transition `(s, c) -> t`
   * is written as `(names[s], c) -> names[t]`. The order does not matter,
   * since transitions writing the same key write the same value.
   */
  method RenameMoves(delta: Moves, names: map<State, State>) returns (m: Moves)
    requires forall k :: k in delta ==> k.0 in names && delta[k] in names
    requires Agreeing(delta, names)
    ensures RenamedMoves(delta, names, m)
  {
    m := map[];
    var todo := delta.Keys;
    while todo != {}
      invariant todo <= delta.Keys
      invariant forall k :: k in delta && k !in todo ==> (names[k.0], k.1) in m && m[(names[k.0], k.1)] == names[delta[k]]
      invariant forall k :: k in m ==> exists k' :: k' in delta && k' !in todo && k == (names[k'.0], k'.1)
      decreases todo
    {
      var k :| k in todo;
      todo := todo - {k};
      m := m[(names[k.0], k.1) := names[delta[k]]];
    }
  }

  /** Every transition of the renamed DFA is on a symbol of the alphabet. */
  lemma RenamedSymbols(d: Dfa, names: map<State, State>, r: Dfa)
    requires Covers(d, names) && RenamedMoves(d.delta, names, r.delta)
    ensures forall k :: k in r.delta ==> k.1 in d.alphabet
  {
    forall k | k in r.delta ensures k.1 in d.alphabet {
      var k' :| k' in d.delta && k'.0 in names && k == (names[k'.0], k'.1);
    }
  }

  /** A name given to no state has no transitions after renaming. */
  lemma RenamedAvoids(d: Dfa, names: map<State, State>, r: Dfa, n: State)
    requires Covers(d, names) && RenamedMoves(d.delta, names, r.delta)
    requires forall s :: s in d.states ==> names[s] != n
    ensures forall k :: k in r.delta ==> k.0 != n
  {
    forall k | k in r.delta ensures k.0 != n {
      var k' :| k' in d.delta && k'.0 in names && k == (names[k'.0], k'.1);
    }
  }

  /** Renaming keeps a DFA well-formed when every new name is a state. */
  lemma RenamedWellFormed(d: Dfa, names: map<State, State>, r: Dfa)
    requires Covers(d, names) && RenamedFrom(d, names, r)
    requires forall s :: s in d.states ==> names[s] in r.states
    ensures WellFormed(r)
  {
    forall k | k in r.delta ensures k.0 in r.states && k.1 in r.alphabet && r.delta[k] in r.states {
      var k' :| k' in d.delta && k'.0 in names && k == (names[k'.0], k'.1);
    }
  }

  /** The renamed DFA follows every run of the DFA, from new name to new name. */
  lemma {:induction false} RenamedRun(d: Dfa, names: map<State, State>, r: Dfa, q: State, w: seq<Symbol>)
    requires Covers(d, names) && RenamedMoves(d.delta, names, r.delta) && q in d.states
    requires Run(d, q, w).Some?
    ensures Run(d, q, w).value in d.states
    ensures Run(r, names[q], w) == Some(names[Run(d, q, w).value])
    decreases |w|
  {
    if |w| > 0 {
      RenamedRun(d, names, r, d.delta[(q, w[0])], w[1..]);
    }
  }

  /** On a total DFA, a word the DFA cannot read to the end is not read by the renamed DFA either. */
  lemma {:induction false} RenamedStuck(d: Dfa, names: map<State, State>, r: Dfa, q: State, w: seq<Symbol>)
    requires Covers(d, names) && Total(d) && RenamedMoves(d.delta, names, r.delta) && q in d.states
    requires Run(d, q, w).None?
    ensures Run(r, names[q], w).None?
    decreases |w|
  {
    if (q, w[0]) in d.delta {
      RenamedStuck(d, names, r, d.delta[(q, w[0])], w[1..]);
    } else {
      RenamedSymbols(d, names, r);
    }
  }

  /**
   * When states sharing a name agree on acceptance, the renamed DFA accepts
   * every word the DFA accepts, and on a total DFA exactly those words.
   */
  lemma RenamedLanguage(d: Dfa, names: map<State, State>, r: Dfa, w: seq<Symbol>)
    requires Covers(d, names) && RenamedFrom(d, names, r) && KeepsVerdicts(d, names)
    ensures Accepts(d, w) ==> Accepts(r, w)
    ensures Total(d) ==> (Accepts(r, w) <==> Accepts(d, w))
  {
    var t := Run(d, d.start, w);
    if t.Some? {
      RenamedRun(d, names, r, d.start, w);
      if names[t.value] in r.accept {
        var s :| s in d.accept && s in names && names[s] == names[t.value];
      }
    } else if Total(d) {
      RenamedStuck(d, names, r, d.start, w);
    }
  }
}
