/**
 * The fragments of Thompson construction in nfa.py (`postfix_to_nfa`): one
 * builder per token kind, with fresh names drawn from the counter.
 */
module Fragments {

  import opened AutomataTypes
  import opened FreshNames
  import opened NfaSim

  /** A partly built automaton (a fragment dict of the source). */
  datatype Frag = Frag(
    start: State,
    accept: set<State>,
    states: set<State>,
    alphabet: set<Symbol>,
    delta: Edges)

  /** Adds `targets` to the successors on label `a` of every state in `sources`, creating missing entries. */
  function AddEdges(delta: Edges, sources: set<State>, a: Symbol, targets: set<State>): (r: Edges)
    ensures forall k :: k in r <==> k in delta || (k.0 in sources && k.1 == a)
    ensures forall q, b :: Succ(r, q, b) == if q in sources && b == a then Succ(delta, q, b) + targets else Succ(delta, q, b)
  {
    map k: (State, Symbol) | k in delta.Keys + (set q | q in sources :: (q, a)) :: if k.0 in sources && k.1 == a then Succ(delta, k.0, a) + targets else delta[k]
  }

  /** The edges of both tables, with the successor sets of a shared key united. */
  function Merge(d1: Edges, d2: Edges): (r: Edges)
    ensures forall k :: k in r <==> k in d1 || k in d2
    ensures forall q, b :: Succ(r, q, b) == Succ(d1, q, b) + Succ(d2, q, b)
  {
    d1 + map k | k in d2 :: Succ(d1, k.0, k.1) + d2[k]
  }

  /** A literal token: two fresh states joined by one edge on the token. */
  function LiteralFrag(tok: char, n: nat): Frag
  {
    var s, e := StateName(n), StateName(n + 1);
    Frag(s, {e}, {s, e}, {[tok]}, map[(s, [tok]) := {e}])
  }

  /** `*`: a fresh start and end around `f`, with the loop-back and skip edges. */
  function StarFrag(f: Frag, n: nat): Frag
  {
    var s, e := StateName(n), StateName(n + 1);
    var d := AddEdges(f.delta[(s, Eps) := {f.start, e}], f.accept, Eps, {f.start, e});
    Frag(s, {e}, f.states + {s, e}, f.alphabet, d)
  }

  /** `+`: `f` concatenated with the `*` wrapper built around it (`nfa . nfa*`). */
  function PlusFrag(f: Frag, n: nat): Frag
  {
    ConcatFrag(f, StarFrag(f, n))
  }

  /** `.`: the accept states of `f1` get an epsilon edge to the start of `f2`. */
  function ConcatFrag(f1: Frag, f2: Frag): Frag
  {
    var d := AddEdges(Merge(f1.delta, f2.delta), f1.accept, Eps, {f2.start});
    Frag(f1.start, f2.accept, f1.states + f2.states, f1.alphabet + f2.alphabet, d)
  }

  /** `|`: a fresh start branching to both, and a fresh end both lead to. */
  function AltFrag(f1: Frag, f2: Frag, n: nat): Frag
  {
    var s, e := StateName(n), StateName(n + 1);
    var d0 := Merge(f1.delta, f2.delta)[(s, Eps) := {f1.start, f2.start}];
    var d := AddEdges(AddEdges(d0, f1.accept, Eps, {e}), f2.accept, Eps, {e});
    Frag(s, {e}, f1.states + f2.states + {s, e}, f1.alphabet + f2.alphabet, d)
  }

  /**
   * Fragment invariants: the start and accept states are states, there is
   * exactly one accept state and it is not the start, every edge joins
   * states and is labelled by epsilon or an alphabet symbol, and every
   * alphabet symbol is a single character (so never the epsilon marker).
   */
  predicate FragWellFormed(f: Frag)
  {
    && f.start in f.states
    && f.accept <= f.states
    && |f.accept| == 1
    && f.start !in f.accept
    && (forall a :: a in f.alphabet ==> |a| == 1)
    && EdgesWithin(f.delta, f.states, f.alphabet)
  }

  /** Every edge joins members of `S` and is labelled by epsilon or a member of `A`. */
  predicate EdgesWithin(delta: Edges, S: set<State>, A: set<Symbol>)
  {
    forall k :: k in delta ==> k.0 in S && delta[k] <= S && (k.1 != Eps ==> k.1 in A)
  }

  lemma EdgesWithinWiden(delta: Edges, S: set<State>, A: set<Symbol>, S': set<State>, A': set<Symbol>)
    requires EdgesWithin(delta, S, A) && S <= S' && A <= A'
    ensures EdgesWithin(delta, S', A')
  {
  }

  lemma AddEdgesWithin(delta: Edges, sources: set<State>, targets: set<State>, S: set<State>, A: set<Symbol>)
    requires EdgesWithin(delta, S, A) && sources <= S && targets <= S
    ensures EdgesWithin(AddEdges(delta, sources, Eps, targets), S, A)
  {
    var r := AddEdges(delta, sources, Eps, targets);
    forall k | k in r ensures k.0 in S && r[k] <= S && (k.1 != Eps ==> k.1 in A) {
      assert r[k] == Succ(r, k.0, k.1);
    }
  }

  lemma MergeWithin(d1: Edges, d2: Edges, S: set<State>, A: set<Symbol>)
    requires EdgesWithin(d1, S, A) && EdgesWithin(d2, S, A)
    ensures EdgesWithin(Merge(d1, d2), S, A)
  {
    var r := Merge(d1, d2);
    forall k | k in r ensures k.0 in S && r[k] <= S && (k.1 != Eps ==> k.1 in A) {
      assert r[k] == Succ(r, k.0, k.1);
    }
  }

  lemma SetEdgeWithin(delta: Edges, s: State, targets: set<State>, S: set<State>, A: set<Symbol>)
    requires EdgesWithin(delta, S, A) && s in S && targets <= S
    ensures EdgesWithin(delta[(s, Eps) := targets], S, A)
  {
  }

  /** Overwriting the entry of a state `s` leaves every other state's edges alone. */
  lemma SetEdgeSucc(delta: Edges, s: State, targets: set<State>)
    ensures Succ(delta[(s, Eps) := targets], s, Eps) == targets
    ensures forall q, b :: q != s ==> Succ(delta[(s, Eps) := targets], q, b) == Succ(delta, q, b)
  {
  }

  /** A literal is two fresh states and the single edge between them. */
  lemma LiteralShape(tok: char, n: nat)
    ensures var f := LiteralFrag(tok, n);
      && FragWellFormed(f)
      && f.states <= NamesBelow(n + 2)
      && f.start == StateName(n) && f.accept == {StateName(n + 1)}
      && f.alphabet == {[tok]}
      && forall q, b :: Succ(f.delta, q, b) == if q == f.start && b == [tok] then f.accept else {}
  {
    NextNameIsFresh(n);
    assert StateName(n) in NamesBelow(n + 2);
    assert StateName(n + 1) in NamesBelow(n + 2);
  }

  lemma LiteralWellFormed(tok: char, n: nat)
    ensures FragWellFormed(LiteralFrag(tok, n))
    ensures LiteralFrag(tok, n).states == {StateName(n), StateName(n + 1)}
  {
    NextNameIsFresh(n);
  }

  /**
   * `*` wraps `f` in two fresh states: the new start branches to the old
   * start and to the new end, and every old accept state gains epsilon edges
   * back to the old start and on to the new end; nothing else changes.
   */
  lemma StarShape(f: Frag, n: nat)
    requires FragWellFormed(f) && f.states <= NamesBelow(n)
    ensures var g, s, e := StarFrag(f, n), StateName(n), StateName(n + 1);
      && FragWellFormed(g)
      && g.states == f.states + {s, e} && g.states <= NamesBelow(n + 2)
      && s !in f.states && e !in f.states
      && g.start == s && g.accept == {e} && g.alphabet == f.alphabet
      && Succ(g.delta, s, Eps) == {f.start, e}
      && forall q, b :: q != s ==>
           Succ(g.delta, q, b) == if q in f.accept && b == Eps then Succ(f.delta, q, b) + {f.start, e} else Succ(f.delta, q, b)
  {
    var s, e := StateName(n), StateName(n + 1);
    NextNameIsFresh(n);
    NamesBelowMonotone(n, n + 2);
    assert s in NamesBelow(n + 2);
    assert e in NamesBelow(n + 2);
    StarWellFormed(f, n);
    StarSucc(f, n);
  }

  lemma StarWellFormed(f: Frag, n: nat)
    requires FragWellFormed(f) && f.states <= NamesBelow(n)
    ensures FragWellFormed(StarFrag(f, n))
  {
    var s, e := StateName(n), StateName(n + 1);
    NextNameIsFresh(n);
    var S := f.states + {s, e};
    var d0 := f.delta[(s, Eps) := {f.start, e}];
    EdgesWithinWiden(f.delta, f.states, f.alphabet, S, f.alphabet);
    SetEdgeWithin(f.delta, s, {f.start, e}, S, f.alphabet);
    AddEdgesWithin(d0, f.accept, {f.start, e}, S, f.alphabet);
  }

  lemma StarSucc(f: Frag, n: nat)
    requires FragWellFormed(f) && f.states <= NamesBelow(n)
    ensures var g, s, e := StarFrag(f, n), StateName(n), StateName(n + 1);
      && Succ(g.delta, s, Eps) == {f.start, e}
      && forall q, b :: q != s ==>
           Succ(g.delta, q, b) == if q in f.accept && b == Eps then Succ(f.delta, q, b) + {f.start, e} else Succ(f.delta, q, b)
  {
    var s, e := StateName(n), StateName(n + 1);
    NextNameIsFresh(n);
    assert s !in f.accept;
    SetEdgeSucc(f.delta, s, {f.start, e});
  }

  /**
   * `+` keeps the start of `f`, adds the `*` wrapper's two fresh states, and
   * makes every accept state of `f` lead by epsilon to the old start, the
   * wrapper's end and the wrapper's start.
   */
  lemma PlusShape(f: Frag, n: nat)
    requires f.states <= NamesBelow(n)
    ensures var g, s, e := PlusFrag(f, n), StateName(n), StateName(n + 1);
      && g.states == f.states + {s, e} && g.states <= NamesBelow(n + 2)
      && s !in f.states && e !in f.states
      && g.start == f.start && g.accept == StarFrag(f, n).accept == {e} && g.alphabet == f.alphabet
  {
    StarFields(f, n);
    ConcatFields(f, StarFrag(f, n));
    FreshPair(n);
    NamesBelowMonotone(n, n + 2);
  }

  lemma StarFields(f: Frag, n: nat)
    ensures var g := StarFrag(f, n);
      g.start == StateName(n) && g.accept == {StateName(n + 1)}
      && g.states == f.states + {StateName(n), StateName(n + 1)} && g.alphabet == f.alphabet
  {
  }

  lemma ConcatFields(f1: Frag, f2: Frag)
    ensures var g := ConcatFrag(f1, f2);
      g.start == f1.start && g.accept == f2.accept
      && g.states == f1.states + f2.states && g.alphabet == f1.alphabet + f2.alphabet
  {
  }

  /** `+` of a well-formed fragment is well-formed. */
  lemma PlusWellFormed(f: Frag, n: nat)
    requires FragWellFormed(f) && f.states <= NamesBelow(n)
    ensures FragWellFormed(PlusFrag(f, n))
  {
    var star := StarFrag(f, n);
    StarWellFormed(f, n);
    NextNameIsFresh(n);
    assert f.states <= star.states && f.alphabet == star.alphabet && f.start !in star.accept;
    ConcatIntoWellFormed(f, star);
  }

  /** Concatenation onto a fragment that already contains the first one stays well-formed. */
  lemma ConcatIntoWellFormed(f: Frag, star: Frag)
    requires FragWellFormed(f) && FragWellFormed(star)
    requires f.states <= star.states && f.alphabet == star.alphabet && f.start !in star.accept
    ensures FragWellFormed(ConcatFrag(f, star))
  {
    EdgesWithinWiden(f.delta, f.states, f.alphabet, star.states, f.alphabet);
    MergeWithin(f.delta, star.delta, star.states, f.alphabet);
    AddEdgesWithin(Merge(f.delta, star.delta), f.accept, {star.start}, star.states, f.alphabet);
  }

  /**
   * The edges of the `+` fragment are those of `f` and of the `*` wrapper
   * built around it, plus an epsilon edge from every accept state of `f` to
   * the wrapper's start.
   */
  lemma PlusEdges(f: Frag, n: nat)
    ensures var g, star := PlusFrag(f, n), StarFrag(f, n);
      forall q, b :: Succ(g.delta, q, b) ==
        if q in f.accept && b == Eps then Succ(f.delta, q, b) + Succ(star.delta, q, b) + {star.start}
        else Succ(f.delta, q, b) + Succ(star.delta, q, b)
  {
  }

  /** `.` joins two disjoint fragments with epsilon edges from the first's accept states to the second's start. */
  lemma ConcatShape(f1: Frag, f2: Frag)
    requires FragWellFormed(f1) && FragWellFormed(f2) && f1.states !! f2.states
    ensures var g := ConcatFrag(f1, f2);
      && FragWellFormed(g)
      && g.states == f1.states + f2.states
      && g.start == f1.start && g.accept == f2.accept && g.alphabet == f1.alphabet + f2.alphabet
      && forall q, b :: Succ(g.delta, q, b) ==
           if q in f1.accept && b == Eps then Succ(f1.delta, q, b) + {f2.start} else Succ(f1.delta, q, b) + Succ(f2.delta, q, b)
  {
    var S, A := f1.states + f2.states, f1.alphabet + f2.alphabet;
    EdgesWithinWiden(f1.delta, f1.states, f1.alphabet, S, A);
    EdgesWithinWiden(f2.delta, f2.states, f2.alphabet, S, A);
    MergeWithin(f1.delta, f2.delta, S, A);
    AddEdgesWithin(Merge(f1.delta, f2.delta), f1.accept, {f2.start}, S, A);
    forall q, b | q in f1.accept ensures Succ(f2.delta, q, b) == {} {
      assert (q, b) !in f2.delta;
    }
  }

  /**
   * `|` puts a fresh start branching to both fragments and a fresh end that
   * every accept state of either leads to by epsilon.
   */
  lemma AltShape(f1: Frag, f2: Frag, n: nat)
    requires FragWellFormed(f1) && FragWellFormed(f2) && f1.states !! f2.states
    requires f1.states + f2.states <= NamesBelow(n)
    ensures var g, s, e := AltFrag(f1, f2, n), StateName(n), StateName(n + 1);
      && FragWellFormed(g)
      && g.states == f1.states + f2.states + {s, e} && g.states <= NamesBelow(n + 2)
      && s !in f1.states + f2.states && e !in f1.states + f2.states
      && g.start == s && g.accept == {e} && g.alphabet == f1.alphabet + f2.alphabet
      && Succ(g.delta, s, Eps) == {f1.start, f2.start}
      && forall q, b :: q != s ==>
           Succ(g.delta, q, b) ==
             if (q in f1.accept || q in f2.accept) && b == Eps
             then Succ(f1.delta, q, b) + Succ(f2.delta, q, b) + {e}
             else Succ(f1.delta, q, b) + Succ(f2.delta, q, b)
  {
    var g, s, e := AltFrag(f1, f2, n), StateName(n), StateName(n + 1);
    NextNameIsFresh(n);
    assert g.states <= NamesBelow(n + 2) by {
      NamesBelowMonotone(n, n + 2);
      assert s in NamesBelow(n + 2);
      assert e in NamesBelow(n + 2);
    }
    assert FragWellFormed(g) by {
      AltWellFormed(f1, f2, n);
    }
    assert Succ(g.delta, s, Eps) == {f1.start, f2.start} by {
      AltStartEdges(f1, f2, n);
    }
    forall q, b | q != s
      ensures Succ(g.delta, q, b) ==
                if (q in f1.accept || q in f2.accept) && b == Eps
                then Succ(f1.delta, q, b) + Succ(f2.delta, q, b) + {e}
                else Succ(f1.delta, q, b) + Succ(f2.delta, q, b)
    {
      AltEdgesAt(f1, f2, n, q, b);
    }
  }

  lemma AltWellFormed(f1: Frag, f2: Frag, n: nat)
    requires FragWellFormed(f1) && FragWellFormed(f2) && f1.states !! f2.states
    requires f1.states + f2.states <= NamesBelow(n)
    ensures FragWellFormed(AltFrag(f1, f2, n))
  {
    var s, e := StateName(n), StateName(n + 1);
    NextNameIsFresh(n);
    var S := f1.states + f2.states + {s, e};
    var A := f1.alphabet + f2.alphabet;
    var d0 := Merge(f1.delta, f2.delta)[(s, Eps) := {f1.start, f2.start}];
    EdgesWithinWiden(f1.delta, f1.states, f1.alphabet, S, A);
    EdgesWithinWiden(f2.delta, f2.states, f2.alphabet, S, A);
    MergeWithin(f1.delta, f2.delta, S, A);
    SetEdgeWithin(Merge(f1.delta, f2.delta), s, {f1.start, f2.start}, S, A);
    AddEdgesWithin(d0, f1.accept, {e}, S, A);
    AddEdgesWithin(AddEdges(d0, f1.accept, Eps, {e}), f2.accept, {e}, S, A);
  }

  lemma AltStartEdges(f1: Frag, f2: Frag, n: nat)
    requires FragWellFormed(f1) && FragWellFormed(f2)
    requires f1.states + f2.states <= NamesBelow(n)
    ensures Succ(AltFrag(f1, f2, n).delta, StateName(n), Eps) == {f1.start, f2.start}
  {
    var s, e := StateName(n), StateName(n + 1);
    NextNameIsFresh(n);
    assert s !in f1.accept && s !in f2.accept;
    SetEdgeSucc(Merge(f1.delta, f2.delta), s, {f1.start, f2.start});
  }

  lemma AltEdgesAt(f1: Frag, f2: Frag, n: nat, q: State, b: Symbol)
    requires q != StateName(n)
    ensures var g, e := AltFrag(f1, f2, n), StateName(n + 1);
      Succ(g.delta, q, b) ==
        if (q in f1.accept || q in f2.accept) && b == Eps
        then Succ(f1.delta, q, b) + Succ(f2.delta, q, b) + {e}
        else Succ(f1.delta, q, b) + Succ(f2.delta, q, b)
  {
    SetEdgeSucc(Merge(f1.delta, f2.delta), StateName(n), {f1.start, f2.start});
  }
}
