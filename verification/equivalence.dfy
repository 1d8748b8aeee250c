/**
 * `DFA.is_equivalent` of dfa.py: a breadth-first search over the pairs of
 * states the two DFAs reach together, expanding a pair only through symbols
 * on which both have a transition.
 */
module Equivalence {

  import opened Wrappers
  import opened AutomataTypes
  import opened Dfas

  type Pair = (State, State)

  /** The symbols the search tries: those of either alphabet. */
  function Symbols(d1: Dfa, d2: Dfa): set<Symbol>
  {
    d1.alphabet + d2.alphabet
  }

  predicate Over(w: seq<Symbol>, A: set<Symbol>)
  {
    forall i :: 0 <= i < |w| ==> w[i] in A
  }

  /** Both DFAs read all of `w` from the states of `p` and end in the states of `x`. */
  ghost predicate Leads(d1: Dfa, d2: Dfa, p: Pair, w: seq<Symbol>, x: Pair)
  {
    Over(w, Symbols(d1, d2)) && Run(d1, p.0, w) == Some(x.0) && Run(d2, p.1, w) == Some(x.1)
  }

  /** The two states of `x` agree on acceptance. */
  predicate SameVerdict(d1: Dfa, d2: Dfa, x: Pair)
  {
    (x.0 in d1.accept) == (x.1 in d2.accept)
  }

  /**
   * What `is_equivalent` decides: every word over both alphabets that both
   * DFAs read to the end leaves them agreeing on acceptance. Words on which
   * either DFA misses a transition are not looked at.
   */
  ghost predicate Agree(d1: Dfa, d2: Dfa)
  {
    forall w, x :: Leads(d1, d2, (d1.start, d2.start), w, x) ==> SameVerdict(d1, d2, x)
  }

  /** The pair reached from `p` on symbol `c`, when both DFAs have the transition. */
  function Step(d1: Dfa, d2: Dfa, p: Pair, c: Symbol): Option<Pair>
  {
    if (p.0, c) in d1.delta && (p.1, c) in d2.delta then Some((d1.delta[(p.0, c)], d2.delta[(p.1, c)])) else None
  }

  /** A set of pairs closed under steps holds every pair reachable from its members. */
  lemma {:induction false} ClosedHoldsReached(d1: Dfa, d2: Dfa, S: set<Pair>, p: Pair, w: seq<Symbol>, x: Pair)
    requires StepsInto(d1, d2, S, S) && p in S
    requires Leads(d1, d2, p, w, x)
    ensures x in S
    decreases |w|
  {
    if |w| == 0 {
    } else {
      var c := w[0];
      assert c in Symbols(d1, d2);
      assert Step(d1, d2, p, c).Some?;
      var p' := Step(d1, d2, p, c).value;
      assert Over(w[1..], Symbols(d1, d2)) by {
        forall i | 0 <= i < |w[1..]| ensures w[1..][i] in Symbols(d1, d2) {
          assert w[1..][i] == w[i + 1];
        }
      }
      ClosedHoldsReached(d1, d2, S, p', w[1..], x);
    }
  }

  /** Extending a word by one step of both DFAs. */
  lemma LeadsSnoc(d1: Dfa, d2: Dfa, p: Pair, w: seq<Symbol>, x: Pair, c: Symbol)
    requires Leads(d1, d2, p, w, x)
    requires c in Symbols(d1, d2) && Step(d1, d2, x, c).Some?
    ensures Leads(d1, d2, p, w + [c], Step(d1, d2, x, c).value)
  {
    RunAppend(d1, p.0, w, [c]);
    RunAppend(d2, p.1, w, [c]);
    assert [c][1..] == [];
    assert forall i :: 0 <= i < |w| ==> (w + [c])[i] == w[i];
  }

  /** Every pair of `S` steps, on every symbol where both DFAs can, into `T`. */
  ghost predicate StepsInto(d1: Dfa, d2: Dfa, S: set<Pair>, T: set<Pair>)
  {
    forall x, c :: x in S && c in Symbols(d1, d2) && Step(d1, d2, x, c).Some? ==> Step(d1, d2, x, c).value in T
  }

  /** Checking `p` once its steps are all visited keeps the checked pairs stepping into the visited ones. */
  lemma StepsIntoGrows(d1: Dfa, d2: Dfa, S: set<Pair>, T: set<Pair>, T': set<Pair>, p: Pair)
    requires StepsInto(d1, d2, S, T) && T <= T'
    requires forall c :: c in Symbols(d1, d2) && Step(d1, d2, p, c).Some? ==> Step(d1, d2, p, c).value in T'
    ensures StepsInto(d1, d2, S + {p}, T')
  {
  }

  /** Every known pair is checked or still queued. */
  predicate Covered(known: set<Pair>, checked: set<Pair>, queue: seq<Pair>)
  {
    forall x :: x in known ==> x in checked || x in queue
  }

  /** Dequeuing the head, checking it and queuing the newly visited pairs keeps every known pair covered. */
  lemma CoveredAfterVisit(known: set<Pair>, known': set<Pair>, checked: set<Pair>, queue: seq<Pair>, added: seq<Pair>)
    requires |queue| > 0 && Covered(known, checked, queue) && known <= known'
    requires forall x :: x in known' - known ==> x in added
    ensures Covered(known', checked + {queue[0]}, queue[1..] + added)
  {
    forall x | x in known' ensures x in checked + {queue[0]} || x in queue[1..] + added {
      if x in known && x !in checked && x != queue[0] {
        var i :| 0 <= i < |queue| && queue[i] == x;
        assert queue[1..][i - 1] == x;
      }
    }
  }

  /** The pairs the search can ever put in `visited`: targets of transitions. */
  function Targets(d: Dfa): set<State>
  {
    set k | k in d.delta :: d.delta[k]
  }

  function Bound(d1: Dfa, d2: Dfa): set<Pair>
  {
    set x, y | x in Targets(d1) && y in Targets(d2) :: (x, y)
  }

  /**
   * `is_equivalent`: returns false exactly when some pair both DFAs reach
   * together from their start states, through symbols where both have a
   * transition, disagrees on acceptance.
   */
  method IsEquivalent(d1: Dfa, d2: Dfa) returns (equivalent: bool)
    ensures equivalent <==> Agree(d1, d2)
  {
    var start := (d1.start, d2.start);
    var visited: set<Pair> := {};
    var queue: seq<Pair> := [start];
    ghost var checked: set<Pair> := {};
    ghost var words: map<Pair, seq<Symbol>> := map[start := []];
    assert Leads(d1, d2, start, [], start);
    while |queue| > 0
      invariant visited <= Bound(d1, d2)
      invariant forall x :: x in queue ==> x in visited + {start}
      invariant visited + {start} <= words.Keys
      invariant forall x :: x in words ==> Leads(d1, d2, start, words[x], x)
      invariant forall x :: x in checked ==> SameVerdict(d1, d2, x)
      invariant StepsInto(d1, d2, checked, visited)
      invariant Covered(visited + {start}, checked, queue)
      decreases Bound(d1, d2) - visited, |queue|
    {
      var p := queue[0];
      assert forall x :: x in queue[1..] ==> x in queue;
      ghost var q0 := queue;
      queue := queue[1..];
      if (p.0 in d1.accept) != (p.1 in d2.accept) {
        assert Leads(d1, d2, start, words[p], p);
        return false;
      }
      ghost var v0 := visited;
      var added;
      visited, added, words := Expand(d1, d2, start, p, visited, words);
      assert forall x :: x in added ==> x in visited;
      assert forall x :: x in queue ==> x in visited + {start};
      StepsIntoGrows(d1, d2, checked, v0, visited, p);
      CoveredAfterVisit(v0 + {start}, visited + {start}, checked, q0, added);
      queue := queue + added;
      checked := checked + {p};
      if visited != v0 {
        var y :| y in visited && y !in v0;
        assert y in Bound(d1, d2) - v0 && y !in Bound(d1, d2) - visited;
      }
    }
    AgreeFromSearch(d1, d2, visited + {start}, checked);
    return true;
  }

  /**
   * The `for c in ...` loop over one dequeued pair `p`: every pair `p` steps
   * to that is not yet visited is marked visited and queued, with a word
   * that leads to it.
   */
  method Expand(d1: Dfa, d2: Dfa, ghost start: Pair, p: Pair, visited: set<Pair>, ghost words: map<Pair, seq<Symbol>>)
    returns (visited': set<Pair>, added: seq<Pair>, ghost words': map<Pair, seq<Symbol>>)
    requires visited <= Bound(d1, d2)
    requires p in words && visited <= words.Keys
    requires forall x :: x in words ==> Leads(d1, d2, start, words[x], x)
    ensures visited <= visited' <= Bound(d1, d2)
    ensures forall c :: c in Symbols(d1, d2) && Step(d1, d2, p, c).Some? ==> Step(d1, d2, p, c).value in visited'
    ensures forall x :: x in visited' - visited <==> x in added
    ensures visited' == visited ==> added == []
    ensures visited' <= words'.Keys && words.Keys <= words'.Keys
    ensures forall x :: x in words' ==> Leads(d1, d2, start, words'[x], x)
  {
    visited', added, words' := visited, [], words;
    var todo := Symbols(d1, d2);
    while todo != {}
      invariant todo <= Symbols(d1, d2)
      invariant visited <= visited' <= Bound(d1, d2)
      invariant forall x :: x in visited' - visited <==> x in added
      invariant visited' == visited ==> added == []
      invariant visited' <= words'.Keys && words.Keys <= words'.Keys
      invariant forall x :: x in words' ==> Leads(d1, d2, start, words'[x], x)
      invariant forall c :: c in Symbols(d1, d2) - todo && Step(d1, d2, p, c).Some? ==>
        Step(d1, d2, p, c).value in visited'
      decreases todo
    {
      var c :| c in todo;
      todo := todo - {c};
      var t1, t2 := Next(d1, p.0, c), Next(d2, p.1, c);
      if t1.Some? && t2.Some? && (t1.value, t2.value) !in visited' {
        var pair := (t1.value, t2.value);
        assert pair in Bound(d1, d2);
        LeadsSnoc(d1, d2, start, words'[p], p, c);
        words' := words'[pair := words'[p] + [c]];
        visited' := visited' + {pair};
        added := added + [pair];
      }
    }
  }

  /** At the end of the search every pair reached together has been checked. */
  lemma AgreeFromSearch(d1: Dfa, d2: Dfa, known: set<Pair>, checked: set<Pair>)
    requires (d1.start, d2.start) in known && known <= checked
    requires forall x :: x in checked ==> SameVerdict(d1, d2, x)
    requires StepsInto(d1, d2, checked, known)
    ensures Agree(d1, d2)
  {
    forall w, x | Leads(d1, d2, (d1.start, d2.start), w, x) ensures SameVerdict(d1, d2, x) {
      ClosedHoldsReached(d1, d2, checked, (d1.start, d2.start), w, x);
    }
  }

  /** A DFA agrees with itself: every pair reached is a state and itself. */
  lemma AgreeReflexive(d: Dfa)
    ensures Agree(d, d)
  {
  }

  /** Agreement does not depend on the order of the two DFAs. */
  lemma AgreeSymmetric(d1: Dfa, d2: Dfa)
    ensures Agree(d1, d2) <==> Agree(d2, d1)
  {
    assert Symbols(d1, d2) == Symbols(d2, d1);
    if Agree(d1, d2) {
      forall w, x | Leads(d2, d1, (d2.start, d1.start), w, x) ensures SameVerdict(d2, d1, x) {
        assert Leads(d1, d2, (d1.start, d2.start), w, (x.1, x.0));
      }
    }
    if Agree(d2, d1) {
      forall w, x | Leads(d1, d2, (d1.start, d2.start), w, x) ensures SameVerdict(d1, d2, x) {
        assert Leads(d2, d1, (d2.start, d1.start), w, (x.1, x.0));
      }
    }
  }

  /**
   * For two total DFAs over one alphabet, agreement is language equality:
   * they accept the same words over that alphabet.
   */
  lemma AgreeIsLanguageEquality(d1: Dfa, d2: Dfa)
    requires WellFormed(d1) && WellFormed(d2) && Total(d1) && Total(d2)
    requires d1.alphabet == d2.alphabet
    ensures Agree(d1, d2) <==> forall w :: Over(w, d1.alphabet) ==> (Accepts(d1, w) <==> Accepts(d2, w))
  {
    if Agree(d1, d2) {
      forall w | Over(w, d1.alphabet) ensures Accepts(d1, w) <==> Accepts(d2, w) {
        TotalRunDefined(d1, d1.start, w);
        TotalRunDefined(d2, d2.start, w);
        assert Leads(d1, d2, (d1.start, d2.start), w, (Run(d1, d1.start, w).value, Run(d2, d2.start, w).value));
      }
    }
    if forall w :: Over(w, d1.alphabet) ==> (Accepts(d1, w) <==> Accepts(d2, w)) {
      forall w, x | Leads(d1, d2, (d1.start, d2.start), w, x) ensures SameVerdict(d1, d2, x) {
        assert Accepts(d1, w) <==> Accepts(d2, w);
      }
    }
  }
}
