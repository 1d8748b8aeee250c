/**
 * The DFA of dfa.py: a partial transition map keyed by (state, symbol), run
 * symbol by symbol until a transition is missing.
 */
module Dfas {

  import opened Wrappers
  import opened AutomataTypes

  type Moves = map<(State, Symbol), State>

  datatype Dfa = Dfa(
    states: set<State>,
    alphabet: set<Symbol>,
    delta: Moves,
    start: State,
    accept: set<State>)

  /**
   * The automaton invariants: the start and accept states are states, and
   * every transition leaves a state on an alphabet symbol for a state.
   */
  predicate WellFormed(d: Dfa)
  {
    && d.start in d.states
    && d.accept <= d.states
    && forall k :: k in d.delta ==> k.0 in d.states && k.1 in d.alphabet && d.delta[k] in d.states
  }

  /** Every state has a transition on every alphabet symbol. */
  predicate Total(d: Dfa)
  {
    forall q, c :: q in d.states && c in d.alphabet ==> (q, c) in d.delta
  }

  /** The state `q` moves to on `c`, or `None` when it has no such transition. */
  function Next(d: Dfa, q: State, c: Symbol): Option<State>
  {
    if (q, c) in d.delta then Some(d.delta[(q, c)]) else None
  }

  /** The state reached from `q` by reading `w`, or `None` once a transition is missing. */
  function Run(d: Dfa, q: State, w: seq<Symbol>): Option<State>
    decreases |w|
  {
    if |w| == 0 then Some(q)
    else match Next(d, q, w[0])
      case None => None
      case Some(q') => Run(d, q', w[1..])
  }

  /** The word is read to the end from the start state and ends in an accept state. */
  predicate Accepts(d: Dfa, w: seq<Symbol>)
  {
    var r := Run(d, d.start, w);
    r.Some? && r.value in d.accept
  }

  /** Reading `u` then `v` is reading `u + v`. */
  lemma {:induction false} RunAppend(d: Dfa, q: State, u: seq<Symbol>, v: seq<Symbol>)
    ensures Run(d, q, u + v) == match Run(d, q, u)
      case None => None
      case Some(p) => Run(d, p, v)
    decreases |u|
  {
    if |u| == 0 {
      assert u + v == v;
    } else {
      assert (u + v)[1..] == u[1..] + v;
      if Next(d, q, u[0]).Some? {
        RunAppend(d, Next(d, q, u[0]).value, u[1..], v);
      }
    }
  }

  /** Once a transition is missing the run stays stuck, whatever follows. */
  lemma StuckStaysStuck(d: Dfa, q: State, u: seq<Symbol>, v: seq<Symbol>)
    requires Run(d, q, u).None?
    ensures Run(d, q, u + v).None?
  {
    RunAppend(d, q, u, v);
  }

  /** A run from a state of a well-formed DFA stays among its states. */
  lemma {:induction false} RunStaysInStates(d: Dfa, q: State, w: seq<Symbol>)
    requires WellFormed(d) && q in d.states
    ensures Run(d, q, w).Some? ==> Run(d, q, w).value in d.states
    decreases |w|
  {
    if |w| > 0 && Next(d, q, w[0]).Some? {
      RunStaysInStates(d, Next(d, q, w[0]).value, w[1..]);
    }
  }

  /** On a total DFA every word over the alphabet is read to the end. */
  lemma {:induction false} TotalRunDefined(d: Dfa, q: State, w: seq<Symbol>)
    requires WellFormed(d) && Total(d) && q in d.states
    requires forall i :: 0 <= i < |w| ==> w[i] in d.alphabet
    ensures Run(d, q, w).Some?
    decreases |w|
  {
    if |w| > 0 {
      TotalRunDefined(d, d.delta[(q, w[0])], w[1..]);
    }
  }

  /**
   * `DFA.test`: follow the transitions from the start, reject as soon as one
   * is missing, and accept exactly when the last state is an accept state.
   */
  method Test(d: Dfa, w: seq<Symbol>) returns (accepted: bool)
    ensures accepted <==> Accepts(d, w)
    ensures |w| == 0 ==> (accepted <==> d.start in d.accept)
  {
    var state := d.start;
    var i := 0;
    while i < |w|
      invariant 0 <= i <= |w|
      invariant Run(d, d.start, w) == Run(d, state, w[i..])
    {
      assert w[i..][1..] == w[i + 1..];
      if (state, w[i]) !in d.delta {
        return false;
      }
      state := d.delta[(state, w[i])];
      i := i + 1;
    }
    accepted := state in d.accept;
  }
}
