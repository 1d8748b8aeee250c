/**
 * `complete_dfa` of dfa.py: every missing (state, symbol) entry is sent to
 * a `DEAD` sink, which is added, looping on every symbol, only when some
 * entry was missing.
 */
module Completion {

  import opened Wrappers
  import opened AutomataTypes
  import opened Dfas

  /** The name of the sink state. */
  const Dead: State := "DEAD"

  /** Some state lacks a transition on some alphabet symbol. */
  predicate Missing(d: Dfa)
  {
    exists q, c :: q in d.states && c in d.alphabet && (q, c) !in d.delta
  }

  /** The first loop: each missing entry of a state on a symbol now leads to `DEAD`. */
  function Filled(d: Dfa): (m: Moves)
    ensures forall k :: k in m <==> k in d.delta || (k.0 in d.states && k.1 in d.alphabet)
  {
    map k | k in d.delta.Keys + (set q, c | q in d.states && c in d.alphabet :: (q, c)) ::
      if k in d.delta then d.delta[k] else Dead
  }

  /** `complete_dfa`. */
  function Complete(d: Dfa): Dfa
  {
    if Missing(d) then
      var loops := map c | c in d.alphabet :: (Dead, c) := Dead;
      Dfa(d.states + {Dead}, d.alphabet, Filled(d) + loops, d.start, d.accept)
    else
      Dfa(d.states, d.alphabet, Filled(d), d.start, d.accept)
  }

  /**
   * After completion every state has a transition on every symbol; the
   * alphabet, start and accept states are unchanged, and `DEAD` is added
   * exactly when some entry was missing.
   */
  lemma CompleteShape(d: Dfa)
    ensures var r := Complete(d);
      && Total(r)
      && r.alphabet == d.alphabet && r.start == d.start && r.accept == d.accept
      && r.states == d.states + (if Missing(d) then {Dead} else {})
  {
    var r := Complete(d);
    forall q, c | q in r.states && c in r.alphabet ensures (q, c) in r.delta {
    }
  }

  /**
   * Existing entries keep their targets, except that when an entry was
   * missing the row of a `DEAD` already among the states is overwritten by
   * self-loops; every added entry leads to `DEAD`, and `DEAD` loops on every
   * symbol once added.
   */
  lemma CompleteEntries(d: Dfa)
    ensures var r := Complete(d);
      && (forall k :: k in d.delta && (k.0 != Dead || !Missing(d)) ==> k in r.delta && r.delta[k] == d.delta[k])
      && (forall k :: k in r.delta && k !in d.delta ==> r.delta[k] == Dead)
      && (Missing(d) ==> forall c :: c in d.alphabet ==> (Dead, c) in r.delta && r.delta[(Dead, c)] == Dead)
      && (forall k :: k in r.delta ==> k in d.delta || (k.0 in r.states && k.1 in d.alphabet))
  {
  }

  /** With nothing missing, completion changes nothing. */
  lemma CompleteWhenTotal(d: Dfa)
    requires !Missing(d)
    ensures Complete(d) == d
  {
    assert Filled(d) == d.delta;
  }

  /** Completing twice is completing once, whatever the states are called. */
  lemma CompleteIdempotent(d: Dfa)
    ensures Complete(Complete(d)) == Complete(d)
  {
    CompleteShape(d);
    var r := Complete(d);
    assert !Missing(r);
    CompleteWhenTotal(r);
  }

  /** Completion keeps a DFA well-formed. */
  lemma CompleteWellFormed(d: Dfa)
    requires WellFormed(d)
    ensures WellFormed(Complete(d))
  {
  }

  /**
   * From a state of `d`, the completed DFA follows `d` as long as `d` has a
   * transition, and after that stays in `DEAD` (or stops on a symbol outside
   * the alphabet).
   */
  lemma {:induction false} CompleteRun(d: Dfa, q: State, w: seq<Symbol>)
    requires WellFormed(d) && Dead !in d.states
    requires q in d.states || (q == Dead && Missing(d))
    ensures var rr, rd := Run(Complete(d), q, w), Run(d, q, w);
      if q in d.states && rd.Some? then rr == rd else rr.None? || rr == Some(Dead)
    decreases |w|
  {
    if |w| > 0 {
      var c := w[0];
      var r := Complete(d);
      CompleteEntries(d);
      if q in d.states && (q, c) in d.delta {
        CompleteRun(d, d.delta[(q, c)], w[1..]);
      } else if (q, c) in r.delta {
        assert r.delta[(q, c)] == Dead;
        CompleteRun(d, Dead, w[1..]);
      }
    }
  }

  /** When `DEAD` is a new name, completion accepts exactly the words the DFA accepts. */
  lemma CompletePreservesLanguage(d: Dfa, w: seq<Symbol>)
    requires WellFormed(d) && Dead !in d.states
    ensures Accepts(Complete(d), w) <==> Accepts(d, w)
  {
    CompleteRun(d, d.start, w);
  }
}
