/**
 * `DFA.minimize` of dfa.py: refine the partition, then build the quotient
 * DFA whose states are the blocks, each named by its members in increasing
 * order, comma-separated, in braces.
 */
module Minimization {

  import opened Wrappers
  import opened AutomataTypes
  import opened Dfas
  import opened BlockNames
  import opened Refinement
  import opened Renaming

  /** `state_name(frozenset())`: the name of the empty block. */
  const EmptyName: State := "{}"

  /** Every state name is non-empty and comma-free, so block names identify blocks. */
  predicate PlainNames(d: Dfa)
  {
    forall q :: q in d.states ==> Plain(q)
  }

  /** `set(group_list)` named by `str_state_map`: the names of the blocks. */
  function NamesOfBlocks(P: set<Block>): set<State>
  {
    set B | B in P :: BlockName(B)
  }

  /** A state of `S` lies in exactly one block of a partition of `S`. */
  lemma OneBlock(P: set<Block>, S: set<State>, s: State)
    requires IsPartition(P, S) && s in S
    ensures exists B :: B in P && s in B
    ensures forall B1, B2 :: B1 in P && s in B1 && B2 in P && s in B2 ==> B1 == B2
  {
    assert (s, s) in Mates(P);
  }

  /** `state_map[s]`: the block holding `s`. */
  function BlockOf(P: set<Block>, S: set<State>, s: State): (B: Block)
    requires IsPartition(P, S) && s in S
    ensures B in P && s in B
    ensures forall B' :: B' in P && s in B' ==> B' == B
  {
    OneBlock(P, S, s);
    var B :| B in P && s in B; B
  }

  /**
   * `state_map` followed by `str_state_map`: every state is mapped to the
   * name of the block holding it.
   */
  function Names(P: set<Block>, S: set<State>): (names: map<State, State>)
    requires IsPartition(P, S)
    ensures names.Keys == S
    ensures forall s, B :: s in S && B in P && s in B ==> names[s] == BlockName(B)
  {
    map s | s in S :: BlockName(BlockOf(P, S, s))
  }

  /** Two states get the same name exactly when they share a block. */
  lemma NamesIffMates(P: set<Block>, S: set<State>, p: State, q: State)
    requires IsPartition(P, S) && p in S && q in S
    requires forall x :: x in S ==> Plain(x)
    ensures Names(P, S)[p] == Names(P, S)[q] <==> (p, q) in Mates(P)
  {
    var Bp, Bq := BlockOf(P, S, p), BlockOf(P, S, q);
    BlockNameInjective(Bp, Bq);
    if (p, q) in Mates(P) {
      var B :| B in P && p in B && q in B;
      assert B == Bp && B == Bq;
    } else {
      assert !(p in Bp && q in Bp);
    }
  }

  /** A partition of the states of a well-formed DFA with plain names. */
  predicate Partitioned(d: Dfa, P: set<Block>)
  {
    WellFormed(d) && PlainNames(d) && IsPartition(P, d.states)
  }

  /**
   * Consistency makes the renamed transitions agree: whichever order the
   * dict loops take, they write the same entry for each key.
   */
  lemma MovesAgree(d: Dfa, P: set<Block>)
    requires Partitioned(d, P) && Consistent(d, P)
    ensures Agreeing(d.delta, Names(P, d.states))
  {
    var names := Names(P, d.states);
    forall k1, k2 | k1 in d.delta && k2 in d.delta && k1.1 == k2.1 && names[k1.0] == names[k2.0]
      ensures names[d.delta[k1]] == names[d.delta[k2]]
    {
      NamesIffMates(P, d.states, k1.0, k2.0);
      NamesIffMates(P, d.states, d.delta[k1], d.delta[k2]);
    }
  }

  /**
   * The quotient of `d` by `P`: its states are the names of the blocks, and
   * it is `d` renamed by the block names.
   */
  ghost predicate IsQuotient(d: Dfa, P: set<Block>, r: Dfa)
    requires IsPartition(P, d.states)
  {
    r.states == NamesOfBlocks(P) && RenamedFrom(d, Names(P, d.states), r)
  }

  /** The empty block's name `{}` is the name of no other block. */
  lemma EmptyBlockUnnamed(d: Dfa, P: set<Block>, B: Block)
    requires IsPartition(P, d.states) && PlainNames(d) && B in P
    ensures BlockName(B) == EmptyName <==> B == {}
  {
    if B != {} {
      var xs := Sorted(B);
      JoinShape(xs);
      assert |BlockName(B)| > 2;
    } else {
      assert Sorted(B) == [];
    }
  }

  /** No state is named `{}`. */
  lemma NameNotEmpty(d: Dfa, P: set<Block>, s: State)
    requires Partitioned(d, P) && s in d.states
    ensures Names(P, d.states)[s] != EmptyName
  {
    var B := BlockOf(P, d.states, s);
    EmptyBlockUnnamed(d, P, B);
  }

  /** Every state's name is a state of the quotient. */
  lemma NamesAreStates(d: Dfa, P: set<Block>, r: Dfa, s: State)
    requires Partitioned(d, P) && IsQuotient(d, P, r) && s in d.states
    ensures Names(P, d.states)[s] in r.states
  {
    assert BlockName(BlockOf(P, d.states, s)) in r.states;
  }

  /** The quotient is well-formed. */
  lemma QuotientWellFormed(d: Dfa, P: set<Block>, r: Dfa)
    requires Partitioned(d, P) && IsQuotient(d, P, r)
    ensures WellFormed(r)
  {
    var names := Names(P, d.states);
    forall s | s in d.states ensures names[s] in r.states {
      NamesAreStates(d, P, r, s);
    }
    RenamedWellFormed(d, names, r);
  }

  /** The `{}` state of the quotient, present exactly when no state or every state accepts, has no transitions. */
  lemma QuotientEmptyStuck(d: Dfa, P: set<Block>, r: Dfa)
    requires Partitioned(d, P) && IsQuotient(d, P, r)
    ensures NoMovesFrom(r, EmptyName)
  {
    forall s | s in d.states ensures Names(P, d.states)[s] != EmptyName {
      NameNotEmpty(d, P, s);
    }
    RenamedAvoids(d, Names(P, d.states), r, EmptyName);
  }

  /** The state `n` has no transitions. */
  predicate NoMovesFrom(r: Dfa, n: State)
  {
    forall k :: k in r.delta ==> k.0 != n
  }

  /** `big` accepts every word `small` accepts. */
  ghost predicate Includes(big: Dfa, small: Dfa)
  {
    forall w :: Accepts(small, w) ==> Accepts(big, w)
  }

  /** Every state but `n0` has a transition on every alphabet symbol. */
  predicate TotalBut(r: Dfa, n0: State)
  {
    forall n, c :: n in r.states && n != n0 && c in r.alphabet ==> (n, c) in r.delta
  }

  /** A non-empty block of a total DFA has a transition on every symbol in the quotient. */
  lemma QuotientMovesFrom(d: Dfa, P: set<Block>, r: Dfa, B: Block, c: Symbol)
    requires Partitioned(d, P) && IsQuotient(d, P, r) && Total(d)
    requires B in P && B != {} && c in d.alphabet
    ensures (BlockName(B), c) in r.delta
  {
    var s :| s in B;
    assert Names(P, d.states)[s] == BlockName(B);
    assert (s, c) in d.delta;
  }

  /** Apart from its `{}` state, the quotient of a total DFA is total. */
  lemma QuotientTotal(d: Dfa, P: set<Block>, r: Dfa)
    requires Partitioned(d, P) && IsQuotient(d, P, r) && Total(d)
    ensures TotalBut(r, EmptyName)
  {
    forall n, c | n in r.states && n != EmptyName && c in r.alphabet ensures (n, c) in r.delta {
      var B :| B in P && n == BlockName(B);
      EmptyBlockUnnamed(d, P, B);
      QuotientMovesFrom(d, P, r, B, c);
    }
  }

  /** The `{}` state is there exactly when the initial split left a block empty. */
  lemma QuotientEmptyState(d: Dfa, P: set<Block>, r: Dfa)
    requires Partitioned(d, P) && IsQuotient(d, P, r)
    ensures EmptyName in r.states <==> {} in P
  {
    if EmptyName in r.states {
      var B :| B in P && BlockName(B) == EmptyName;
      EmptyBlockUnnamed(d, P, B);
    } else if {} in P {
      assert BlockName({}) in r.states;
      EmptyBlockUnnamed(d, P, {});
    }
  }

  /** States that share a block, and so a name, agree on acceptance. */
  lemma NamesKeepVerdicts(d: Dfa, P: set<Block>)
    requires Partitioned(d, P) && NoMix(d, P)
    ensures KeepsVerdicts(d, Names(P, d.states))
  {
    var names := Names(P, d.states);
    forall s, t | s in d.states && t in d.states && s in names && t in names && names[s] == names[t]
      ensures s in d.accept <==> t in d.accept
    {
      NamesIffMates(P, d.states, s, t);
    }
  }

  /**
   * The quotient accepts every word the DFA accepts, and on a total DFA
   * only those.
   */
  lemma QuotientLanguage(d: Dfa, P: set<Block>, r: Dfa)
    requires Partitioned(d, P) && NoMix(d, P) && IsQuotient(d, P, r)
    ensures Includes(r, d)
    ensures Total(d) ==> Includes(d, r)
  {
    NamesKeepVerdicts(d, P);
    forall w ensures (Accepts(d, w) ==> Accepts(r, w)) && (Total(d) ==> (Accepts(r, w) ==> Accepts(d, w))) {
      RenamedLanguage(d, Names(P, d.states), r, w);
    }
  }

  /**
   * Every state is named after the block holding it, so two states share a
   * name exactly when they share a block.
   */
  predicate NamedAfterBlocks(P: set<Block>, names: map<State, State>)
  {
    && (forall s, B :: s in names && B in P && s in B ==> names[s] == BlockName(B))
    && (forall p, q :: p in names && q in names ==> (names[p] == names[q] <==> (p, q) in Mates(P)))
  }

  /** The names of `Names` follow the blocks. */
  lemma NamesFollowBlocks(d: Dfa, P: set<Block>)
    requires Partitioned(d, P)
    ensures NamedAfterBlocks(P, Names(P, d.states))
  {
    var names := Names(P, d.states);
    forall p, q | p in names && q in names ensures names[p] == names[q] <==> (p, q) in Mates(P) {
      NamesIffMates(P, d.states, p, q);
    }
  }

  /**
   * `minimize`: the refinement loop, then every state is named after its
   * block and the DFA is renamed accordingly, its states being the names of
   * all the blocks. A `{}` state, without transitions, appears exactly when
   * no state or every state accepts. Every accepted word stays accepted,
   * and on a total DFA the language is kept.
   */
  method Minimize(d: Dfa) returns (r: Dfa, P: set<Block>, names: map<State, State>)
    requires WellFormed(d) && PlainNames(d)
    ensures IsPartition(P, d.states) && NoMix(d, P) && Consistent(d, P)
    ensures names.Keys == d.states && NamedAfterBlocks(P, names)
    ensures RenamedFrom(d, names, r)
    ensures r.states == NamesOfBlocks(P)
    ensures {} in P <==> d.accept == {} || d.states <= d.accept
    ensures EmptyName in r.states <==> {} in P
    ensures WellFormed(r) && NoMovesFrom(r, EmptyName)
    ensures Total(d) ==> TotalBut(r, EmptyName)
    ensures Includes(r, d)
    ensures Total(d) ==> Includes(d, r)
  {
    P := Refine(d);
    names := Names(P, d.states);
    MovesAgree(d, P);
    var moves := RenameMoves(d.delta, names);
    r := Dfa(NamesOfBlocks(P), d.alphabet, moves, names[d.start], Image(names, d.accept));
    assert IsQuotient(d, P, r);
    QuotientWellFormed(d, P, r);
    QuotientEmptyStuck(d, P, r);
    if Total(d) {
      QuotientTotal(d, P, r);
    }
    QuotientEmptyState(d, P, r);
    NamesFollowBlocks(d, P);
    QuotientLanguage(d, P, r);
  }
}
