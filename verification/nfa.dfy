/**
 * The NFA of nfa.py: a transition relation keyed by (state, symbol), with
 * epsilon edges under the empty symbol, simulated by subset construction.
 */
module NfaSim {

  import opened AutomataTypes

  type Edges = map<(State, Symbol), set<State>>

  datatype Nfa = Nfa(
    states: set<State>,
    alphabet: set<Symbol>,
    delta: Edges,
    start: State,
    accept: set<State>)

  /**
   * The automaton invariants: start and accept states are states, every edge
   * joins states, every non-epsilon edge symbol is in the alphabet, and the
   * alphabet does not hold the epsilon marker.
   */
  predicate WellFormed(nfa: Nfa)
  {
    && nfa.start in nfa.states
    && nfa.accept <= nfa.states
    && Eps !in nfa.alphabet
    && forall k :: k in nfa.delta ==>
         k.0 in nfa.states && nfa.delta[k] <= nfa.states && (k.1 != Eps ==> k.1 in nfa.alphabet)
  }

  /** The successors of `q` on label `a`, empty when the table has no entry for the pair. */
  function Succ(delta: Edges, q: State, a: Symbol): set<State>
  {
    if (q, a) in delta then delta[(q, a)] else {}
  }

  /** The union of the `a`-successors of the states in `S`. */
  function Image(delta: Edges, S: set<State>, a: Symbol): set<State>
  {
    set q, t | q in S && t in Succ(delta, q, a) :: t
  }

  /** Every target of an epsilon edge. */
  function EpsTargets(delta: Edges): set<State>
  {
    set k, t | k in delta && k.1 == Eps && t in delta[k] :: t
  }

  predicate EpsClosed(delta: Edges, C: set<State>)
  {
    forall q :: q in C ==> Succ(delta, q, Eps) <= C
  }

  lemma ImageWithinTargets(delta: Edges, S: set<State>)
    ensures Image(delta, S, Eps) <= EpsTargets(delta)
  {
    forall t | t in Image(delta, S, Eps) ensures t in EpsTargets(delta) {
      var q :| q in S && t in Succ(delta, q, Eps);
      assert (q, Eps) in delta && t in delta[(q, Eps)];
    }
  }

  /** The epsilon closure of `S`, as a least fixpoint of one-step expansion. */
  function Closure(delta: Edges, S: set<State>): set<State>
    decreases EpsTargets(delta) - S
  {
    var S' := S + Image(delta, S, Eps);
    if S' <= S then S
    else
      ImageWithinTargets(delta, S);
      assert EpsTargets(delta) - S' < EpsTargets(delta) - S;
      Closure(delta, S')
  }

  // ---------------------------------------------------------------------
  // Reachability over epsilon edges

  ghost predicate EpsPath(delta: Edges, p: seq<State>)
  {
    1 <= |p| && forall i :: 0 <= i < |p| - 1 ==> p[i + 1] in Succ(delta, p[i], Eps)
  }

  /** `t` is reachable from some state of `S` by epsilon edges alone. */
  ghost predicate EpsReachable(delta: Edges, S: set<State>, t: State)
  {
    exists p :: EpsPath(delta, p) && p[0] in S && p[|p| - 1] == t
  }

  lemma {:induction false} ClosureExtendsAndIsClosed(delta: Edges, S: set<State>)
    ensures S <= Closure(delta, S)
    ensures EpsClosed(delta, Closure(delta, S))
    decreases EpsTargets(delta) - S
  {
    var S' := S + Image(delta, S, Eps);
    if S' <= S {
      forall q | q in S ensures Succ(delta, q, Eps) <= S {
        forall t | t in Succ(delta, q, Eps) ensures t in S {
          assert t in Image(delta, S, Eps);
        }
      }
    } else {
      ImageWithinTargets(delta, S);
      assert EpsTargets(delta) - S' < EpsTargets(delta) - S;
      ClosureExtendsAndIsClosed(delta, S');
    }
  }

  lemma {:induction false} ClosureLeast(delta: Edges, S: set<State>, C: set<State>)
    requires S <= C && EpsClosed(delta, C)
    ensures Closure(delta, S) <= C
    decreases EpsTargets(delta) - S
  {
    var S' := S + Image(delta, S, Eps);
    if !(S' <= S) {
      ImageWithinTargets(delta, S);
      assert EpsTargets(delta) - S' < EpsTargets(delta) - S;
      forall t | t in Image(delta, S, Eps) ensures t in C {
        var q :| q in S && t in Succ(delta, q, Eps);
      }
      ClosureLeast(delta, S', C);
    }
  }

  lemma PathJoin(delta: Edges, p: seq<State>, r: seq<State>)
    requires EpsPath(delta, p) && EpsPath(delta, r) && p[|p| - 1] == r[0]
    ensures EpsPath(delta, p + r[1..])
    ensures (p + r[1..])[0] == p[0] && (p + r[1..])[|p + r[1..]| - 1] == r[|r| - 1]
  {
    var j := p + r[1..];
    forall i | 0 <= i < |j| - 1 ensures j[i + 1] in Succ(delta, j[i], Eps) {
      if i >= |p| - 1 {
        assert j[i] == r[i - |p| + 1] && j[i + 1] == r[i - |p| + 2];
      }
    }
  }

  lemma {:induction false} ClosureReachesOnlyReachable(delta: Edges, S: set<State>, t: State)
    requires t in Closure(delta, S)
    ensures EpsReachable(delta, S, t)
    decreases EpsTargets(delta) - S
  {
    var S' := S + Image(delta, S, Eps);
    if S' <= S {
      assert EpsPath(delta, [t]);
    } else {
      ImageWithinTargets(delta, S);
      assert EpsTargets(delta) - S' < EpsTargets(delta) - S;
      ClosureReachesOnlyReachable(delta, S', t);
      var p :| EpsPath(delta, p) && p[0] in S' && p[|p| - 1] == t;
      if p[0] !in S {
        var q :| q in S && p[0] in Succ(delta, q, Eps);
        assert EpsPath(delta, [q, p[0]]);
        PathJoin(delta, [q, p[0]], p);
      }
    }
  }

  lemma {:induction false} PathStaysInClosed(delta: Edges, C: set<State>, p: seq<State>)
    requires EpsPath(delta, p) && p[0] in C && EpsClosed(delta, C)
    ensures p[|p| - 1] in C
    decreases |p|
  {
    if |p| > 1 {
      var p' := p[..|p| - 1];
      assert EpsPath(delta, p');
      PathStaysInClosed(delta, C, p');
      assert p[|p| - 1] in Succ(delta, p'[|p'| - 1], Eps);
    }
  }

  /** The closure holds exactly the states epsilon-reachable from `S`. */
  lemma ClosureIsEpsReachability(delta: Edges, S: set<State>, t: State)
    ensures t in Closure(delta, S) <==> EpsReachable(delta, S, t)
  {
    if t in Closure(delta, S) {
      ClosureReachesOnlyReachable(delta, S, t);
    }
    if EpsReachable(delta, S, t) {
      var p :| EpsPath(delta, p) && p[0] in S && p[|p| - 1] == t;
      ClosureExtendsAndIsClosed(delta, S);
      PathStaysInClosed(delta, Closure(delta, S), p);
    }
  }

  /**
   * `NFA.epsilon_closure`: a worklist traversal over epsilon edges. States
   * are taken from the worklist in any order; the result does not depend
   * on it.
   */
  method EpsilonClosure(nfa: Nfa, S: set<State>) returns (closure: set<State>)
    ensures closure == Closure(nfa.delta, S)
    ensures S <= closure
    ensures EpsClosed(nfa.delta, closure)
    ensures forall t :: t in closure <==> EpsReachable(nfa.delta, S, t)
  {
    ghost var full := Closure(nfa.delta, S);
    ClosureExtendsAndIsClosed(nfa.delta, S);
    var stack := S;
    closure := S;
    while stack != {}
      invariant stack <= closure
      invariant S <= closure <= full
      invariant forall q :: q in closure && q !in stack ==> Succ(nfa.delta, q, Eps) <= closure
      decreases full - closure, stack
    {
      var state :| state in stack;
      stack := stack - {state};
      var succ := Succ(nfa.delta, state, Eps);
      assert succ <= full;
      ghost var before := closure;
      ghost var rest := stack;
      var todo := succ;
      while todo != {}
        invariant todo <= succ
        invariant stack == rest + (closure - before)
        invariant rest <= before
        invariant before <= closure <= full
        invariant succ - todo <= closure
        invariant forall q :: q in before && q !in stack && q != state ==> Succ(nfa.delta, q, Eps) <= before
        decreases todo
      {
        var next :| next in todo;
        todo := todo - {next};
        if next !in closure {
          closure := closure + {next};
          stack := stack + {next};
        }
      }
    }
    ClosureLeast(nfa.delta, S, closure);
    forall t ensures t in closure <==> EpsReachable(nfa.delta, S, t) {
      ClosureIsEpsReachability(nfa.delta, S, t);
    }
  }

  // ---------------------------------------------------------------------
  // Subset simulation

  /** One simulation step: close the union of the `a`-successors. */
  function Step(nfa: Nfa, current: set<State>, a: Symbol): set<State>
  {
    Closure(nfa.delta, Image(nfa.delta, current, a))
  }

  /** The set `current` after consuming `w`. */
  function Run(nfa: Nfa, w: seq<Symbol>): set<State>
    decreases |w|
  {
    if |w| == 0 then Closure(nfa.delta, {nfa.start})
    else Step(nfa, Run(nfa, w[..|w| - 1]), w[|w| - 1])
  }

  predicate Accepts(nfa: Nfa, w: seq<Symbol>)
  {
    Run(nfa, w) * nfa.accept != {}
  }

  /** `NFA.test`. */
  method Test(nfa: Nfa, w: seq<Symbol>) returns (accepted: bool)
    ensures accepted <==> Accepts(nfa, w)
    ensures |w| == 0 ==> (accepted <==> Closure(nfa.delta, {nfa.start}) * nfa.accept != {})
    ensures NoEps(w) ==> (accepted <==> AcceptsByWalk(nfa, w))
  {
    var current := EpsilonClosure(nfa, {nfa.start});
    var i := 0;
    while i < |w|
      invariant 0 <= i <= |w|
      invariant current == Run(nfa, w[..i])
    {
      var symbol := w[i];
      var nextStates: set<State> := {};
      var todo := current;
      while todo != {}
        invariant todo <= current
        invariant nextStates == Image(nfa.delta, current - todo, symbol)
        decreases todo
      {
        var state :| state in todo;
        ImageAddOne(nfa.delta, current - todo, state, symbol);
        assert current - (todo - {state}) == (current - todo) + {state};
        nextStates := nextStates + Succ(nfa.delta, state, symbol);
        todo := todo - {state};
      }
      assert current - todo == current;
      current := EpsilonClosure(nfa, nextStates);
      assert w[..i + 1][..i] == w[..i];
      i := i + 1;
    }
    assert w[..|w|] == w;
    accepted := current * nfa.accept != {};
    if NoEps(w) {
      AcceptsIffWalk(nfa, w);
    }
  }

  lemma ImageAddOne(delta: Edges, S: set<State>, q: State, a: Symbol)
    ensures Image(delta, S + {q}, a) == Image(delta, S, a) + Succ(delta, q, a)
  {
  }

  /** Once no state is active, none ever becomes active again. */
  lemma {:induction false} RunEmptyStaysEmpty(nfa: Nfa, w: seq<Symbol>, v: seq<Symbol>)
    requires Run(nfa, w) == {}
    ensures Run(nfa, w + v) == {}
    ensures !Accepts(nfa, w + v)
    decreases |v|
  {
    if |v| > 0 {
      var v' := v[..|v| - 1];
      RunEmptyStaysEmpty(nfa, w, v');
      assert (w + v)[..|w + v| - 1] == w + v';
      assert Image(nfa.delta, {}, v[|v| - 1]) == {};
    } else {
      assert w + v == w;
    }
  }

  // ---------------------------------------------------------------------
  // Walk semantics: an independent account of acceptance

  /** Follow an edge labelled `sym` (Eps for an epsilon edge) into `target`. */
  datatype Move = Move(sym: Symbol, target: State)

  /** Where a walk from `q` ends. */
  function End(q: State, moves: seq<Move>): State
  {
    if |moves| == 0 then q else moves[|moves| - 1].target
  }

  ghost predicate IsWalk(delta: Edges, q: State, moves: seq<Move>)
    decreases |moves|
  {
    |moves| == 0 ||
    var pre := moves[..|moves| - 1];
    var last := moves[|moves| - 1];
    IsWalk(delta, q, pre) && last.target in Succ(delta, End(q, pre), last.sym)
  }

  /** The symbols a walk reads: its labels with the epsilon ones dropped. */
  function Word(moves: seq<Move>): seq<Symbol>
    decreases |moves|
  {
    if |moves| == 0 then []
    else
      var last := moves[|moves| - 1];
      Word(moves[..|moves| - 1]) + (if last.sym == Eps then [] else [last.sym])
  }

  predicate NoEps(w: seq<Symbol>)
  {
    forall i :: 0 <= i < |w| ==> w[i] != Eps
  }

  /** Some walk from the start reads `w` and ends in `t`. */
  ghost predicate Reads(nfa: Nfa, w: seq<Symbol>, t: State)
  {
    exists moves :: IsWalk(nfa.delta, nfa.start, moves) && End(nfa.start, moves) == t && Word(moves) == w
  }

  ghost predicate AcceptsByWalk(nfa: Nfa, w: seq<Symbol>)
  {
    exists t :: t in nfa.accept && Reads(nfa, w, t)
  }

  lemma RunIsClosed(nfa: Nfa, w: seq<Symbol>)
    ensures EpsClosed(nfa.delta, Run(nfa, w))
  {
    if |w| == 0 {
      ClosureExtendsAndIsClosed(nfa.delta, {nfa.start});
    } else {
      ClosureExtendsAndIsClosed(nfa.delta, Image(nfa.delta, Run(nfa, w[..|w| - 1]), w[|w| - 1]));
    }
  }

  /** Every walk from the start ends in the simulated set for the word it reads. */
  lemma {:induction false} WalkEndsInRun(nfa: Nfa, moves: seq<Move>)
    requires IsWalk(nfa.delta, nfa.start, moves)
    ensures End(nfa.start, moves) in Run(nfa, Word(moves))
    decreases |moves|
  {
    if |moves| == 0 {
      ClosureExtendsAndIsClosed(nfa.delta, {nfa.start});
    } else {
      var pre := moves[..|moves| - 1];
      var m := moves[|moves| - 1];
      WalkEndsInRun(nfa, pre);
      var u := End(nfa.start, pre);
      if m.sym == Eps {
        assert Word(moves) == Word(pre);
        RunIsClosed(nfa, Word(pre));
      } else {
        var w := Word(pre) + [m.sym];
        assert Word(moves) == w;
        assert w[..|w| - 1] == Word(pre);
        assert m.target in Image(nfa.delta, Run(nfa, Word(pre)), m.sym);
        ClosureExtendsAndIsClosed(nfa.delta, Image(nfa.delta, Run(nfa, Word(pre)), m.sym));
      }
    }
  }

  function EpsMoves(p: seq<State>): (moves: seq<Move>)
    requires 1 <= |p|
    ensures |moves| == |p| - 1
    ensures forall i :: 0 <= i < |moves| ==> moves[i] == Move(Eps, p[i + 1])
  {
    var n := |p| - 1;
    seq(n, i requires 0 <= i < n => Move(Eps, p[i + 1]))
  }

  lemma {:induction false} WordOfEpsMoves(moves: seq<Move>)
    requires forall i :: 0 <= i < |moves| ==> moves[i].sym == Eps
    ensures Word(moves) == []
    decreases |moves|
  {
    if |moves| > 0 {
      WordOfEpsMoves(moves[..|moves| - 1]);
    }
  }

  lemma {:induction false} WordAppend(a: seq<Move>, b: seq<Move>)
    ensures Word(a + b) == Word(a) + Word(b)
    decreases |b|
  {
    if |b| > 0 {
      assert (a + b)[..|a + b| - 1] == a + b[..|b| - 1];
      WordAppend(a, b[..|b| - 1]);
    } else {
      assert a + b == a;
    }
  }

  lemma {:induction false} WalkAppend(delta: Edges, q: State, a: seq<Move>, b: seq<Move>)
    requires IsWalk(delta, q, a) && IsWalk(delta, End(q, a), b)
    ensures IsWalk(delta, q, a + b)
    ensures End(q, a + b) == End(End(q, a), b)
    decreases |b|
  {
    if |b| == 0 {
      assert a + b == a;
    } else {
      var b' := b[..|b| - 1];
      assert (a + b)[..|a + b| - 1] == a + b';
      WalkAppend(delta, q, a, b');
    }
  }

  lemma {:induction false} EpsPathWalk(delta: Edges, p: seq<State>)
    requires EpsPath(delta, p)
    ensures IsWalk(delta, p[0], EpsMoves(p))
    ensures End(p[0], EpsMoves(p)) == p[|p| - 1]
    ensures Word(EpsMoves(p)) == []
    decreases |p|
  {
    var moves := EpsMoves(p);
    if |p| > 1 {
      var p' := p[..|p| - 1];
      assert EpsPath(delta, p');
      EpsPathWalk(delta, p');
      assert moves[..|moves| - 1] == EpsMoves(p');
    }
    WordOfEpsMoves(moves);
  }

  lemma ReadsIntro(nfa: Nfa, moves: seq<Move>)
    requires IsWalk(nfa.delta, nfa.start, moves)
    ensures Reads(nfa, Word(moves), End(nfa.start, moves))
  {
  }

  /** A walk to `q` reading `v`, one `a`-edge, then an epsilon path, reads `v + [a]`. */
  lemma ExtendWalk(nfa: Nfa, moves0: seq<Move>, v: seq<Symbol>, a: Symbol, q: State, p: seq<State>)
    returns (moves: seq<Move>)
    requires IsWalk(nfa.delta, nfa.start, moves0) && End(nfa.start, moves0) == q && Word(moves0) == v
    requires a != Eps
    requires EpsPath(nfa.delta, p) && p[0] in Succ(nfa.delta, q, a)
    ensures IsWalk(nfa.delta, nfa.start, moves) && End(nfa.start, moves) == p[|p| - 1] && Word(moves) == v + [a]
  {
    var one := [Move(a, p[0])];
    assert one[..0] == [];
    assert IsWalk(nfa.delta, q, one);
    assert Word(one) == [a];
    WalkAppend(nfa.delta, nfa.start, moves0, one);
    WordAppend(moves0, one);
    var moves1 := moves0 + one;
    EpsPathWalk(nfa.delta, p);
    WalkAppend(nfa.delta, nfa.start, moves1, EpsMoves(p));
    WordAppend(moves1, EpsMoves(p));
    moves := moves1 + EpsMoves(p);
  }

  lemma PickLastEdge(delta: Edges, S: set<State>, a: Symbol, t: State) returns (q: State, p: seq<State>)
    requires t in Closure(delta, Image(delta, S, a))
    ensures q in S && EpsPath(delta, p) && p[0] in Succ(delta, q, a) && p[|p| - 1] == t
  {
    ClosureIsEpsReachability(delta, Image(delta, S, a), t);
    p :| EpsPath(delta, p) && p[0] in Image(delta, S, a) && p[|p| - 1] == t;
    q :| q in S && p[0] in Succ(delta, q, a);
  }

  /** A walk from the start that reads `w` and ends in `t`, for each simulated state `t`. */
  lemma {:induction false} WalkToRunState(nfa: Nfa, w: seq<Symbol>, t: State) returns (moves: seq<Move>)
    requires NoEps(w)
    requires t in Run(nfa, w)
    ensures IsWalk(nfa.delta, nfa.start, moves) && End(nfa.start, moves) == t && Word(moves) == w
    decreases |w|
  {
    if |w| == 0 {
      ClosureIsEpsReachability(nfa.delta, {nfa.start}, t);
      var p :| EpsPath(nfa.delta, p) && p[0] in {nfa.start} && p[|p| - 1] == t;
      EpsPathWalk(nfa.delta, p);
      moves := EpsMoves(p);
    } else {
      var v := w[..|w| - 1];
      var a := w[|w| - 1];
      var S := Run(nfa, v);
      assert t in Closure(nfa.delta, Image(nfa.delta, S, a));
      var q, p := PickLastEdge(nfa.delta, S, a, t);
      assert NoEps(v);
      var moves0 := WalkToRunState(nfa, v, q);
      moves := ExtendWalk(nfa, moves0, v, a, q, p);
      assert w == v + [a];
    }
  }

  /** Subset simulation agrees with the walk semantics on inputs without the epsilon symbol. */
  lemma AcceptsIffWalk(nfa: Nfa, w: seq<Symbol>)
    requires NoEps(w)
    ensures Accepts(nfa, w) <==> AcceptsByWalk(nfa, w)
  {
    if Accepts(nfa, w) {
      var t :| t in Run(nfa, w) * nfa.accept;
      var moves := WalkToRunState(nfa, w, t);
      ReadsIntro(nfa, moves);
      assert t in nfa.accept && Reads(nfa, w, t);
    }
    if AcceptsByWalk(nfa, w) {
      var t :| t in nfa.accept && Reads(nfa, w, t);
      var moves :| IsWalk(nfa.delta, nfa.start, moves) && End(nfa.start, moves) == t && Word(moves) == w;
      WalkEndsInRun(nfa, moves);
      assert t in Run(nfa, w) * nfa.accept;
    }
  }
}
