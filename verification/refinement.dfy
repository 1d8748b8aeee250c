/**
 * The refinement loop of `DFA.minimize` in dfa.py: a partition `P` of the
 * states is split by the predecessors of splitters popped from the worklist
 * `W` until `W` is empty.
 */
module Refinement {

  import opened AutomataTypes
  import opened Dfas

  type Block = set<State>

  /** The pairs of states that share a block. */
  function Mates(P: set<Block>): set<(State, State)>
  {
    set B, x, y | B in P && x in B && y in B :: (x, y)
  }

  /** The blocks lie within `S`, cover it, and are pairwise disjoint. */
  predicate IsPartition(P: set<Block>, S: set<State>)
  {
    && (forall B :: B in P ==> B <= S)
    && (forall x :: x in S ==> (x, x) in Mates(P))
    && (forall B1, B2 :: B1 in P && B2 in P && B1 != B2 ==> B1 !! B2)
  }

  /** No block holds both an accepting and a non-accepting state. */
  ghost predicate NoMix(d: Dfa, P: set<Block>)
  {
    forall x, y :: (x, y) in Mates(P) ==> (x in d.accept <==> y in d.accept)
  }

  /** Some set on the worklist holds one of `x`, `y` and not the other. */
  predicate Apart(W: seq<Block>, x: State, y: State)
  {
    exists S :: S in W && (x in S) != (y in S)
  }

  /** `x` and `y` share a block, or the worklist will still tell them apart. */
  predicate Guarded(P: set<Block>, W: seq<Block>, x: State, y: State)
  {
    (x, y) in Mates(P) || Apart(W, x, y)
  }

  /**
   * The loop invariant: when two states share a block and both have a
   * transition on an alphabet symbol, their successors share a block or are
   * told apart by the worklist, or else by the splitter `A` being processed,
   * on a symbol of `T` it has not yet been applied to.
   */
  ghost predicate Pending(d: Dfa, P: set<Block>, W: seq<Block>, A: Block, T: set<Symbol>)
  {
    forall p, q, c :: (p, q) in Mates(P) && c in d.alphabet && (p, c) in d.delta && (q, c) in d.delta ==>
      Guarded(P, W, d.delta[(p, c)], d.delta[(q, c)])
      || (c in T && (d.delta[(p, c)] in A) != (d.delta[(q, c)] in A))
  }

  /**
   * The partition is consistent with the transitions: states that share a
   * block and both have a transition on an alphabet symbol go to states that
   * share a block.
   */
  ghost predicate Consistent(d: Dfa, P: set<Block>)
  {
    forall p, q, c :: (p, q) in Mates(P) && c in d.alphabet && (p, c) in d.delta && (q, c) in d.delta ==>
      (d.delta[(p, c)], d.delta[(q, c)]) in Mates(P)
  }

  // ---------------------------------------------------------------------
  // One split

  /** `W.remove(Y)`: drop the first set equal to `Y`. */
  function RemoveFirst(W: seq<Block>, Y: Block): (r: seq<Block>)
    ensures forall S :: S in W && S != Y ==> S in r
    ensures forall S :: S in r ==> S in W
    decreases |W|
  {
    if |W| == 0 then []
    else if W[0] == Y then W[1..]
    else [W[0]] + RemoveFirst(W[1..], Y)
  }

  /** The part with fewer states, the first on a tie. */
  function Smaller(I: Block, D: Block): Block
  {
    if |I| <= |D| then I else D
  }

  /**
   * The body of `for Y in P[:]`: when `X` cuts `Y` into two non-empty parts,
   * `Y` is replaced by them in `P`; on the worklist `Y` (if there) is
   * replaced by both, and otherwise the smaller part is added.
   */
  function SplitBlock(P: set<Block>, W: seq<Block>, X: Block, Y: Block): (set<Block>, seq<Block>)
  {
    var I, D := X * Y, Y - X;
    if I != {} && D != {} then
      var W' := if Y in W then RemoveFirst(W, Y) + [I, D] else W + [Smaller(I, D)];
      (P - {Y} + {I, D}, W')
    else
      (P, W)
  }

  lemma MatesOf(P: set<Block>, B: Block, x: State, y: State)
    requires B in P && x in B && y in B
    ensures (x, y) in Mates(P)
  {
  }

  /** Splitting a block keeps a partition, with two new blocks that were not blocks before. */
  lemma SplitPartition(P: set<Block>, S: set<State>, X: Block, Y: Block)
    requires IsPartition(P, S) && Y in P
    requires X * Y != {} && Y - X != {}
    ensures IsPartition(P - {Y} + {X * Y, Y - X}, S)
    ensures X * Y !in P && Y - X !in P
  {
    var I, D := X * Y, Y - X;
    var P' := P - {Y} + {I, D};
    forall x | x in S ensures (x, x) in Mates(P') {
      var B :| B in P && x in B && x in B;
      if B == Y {
        if x in X { MatesOf(P', I, x, x); } else { MatesOf(P', D, x, x); }
      } else {
        MatesOf(P', B, x, x);
      }
    }
    var i :| i in I;
    var j :| j in D;
    assert I != Y && D != Y;
    forall B | B in P && B != Y ensures B != I && B != D {
      assert Y !! B;
      assert i !in B && j !in B;
    }
  }

  /** Splitting only separates members of `Y` on different sides of `X`, and separates at least one pair. */
  lemma SplitMates(P: set<Block>, S: set<State>, X: Block, Y: Block)
    requires IsPartition(P, S) && Y in P
    requires X * Y != {} && Y - X != {}
    ensures var M, M' := Mates(P), Mates(P - {Y} + {X * Y, Y - X});
      && M' < M
      && forall x, y :: (x, y) in M && (x, y) !in M' ==> x in Y && y in Y && ((x in X) != (y in X))
  {
    var I, D := X * Y, Y - X;
    var P' := P - {Y} + {I, D};
    forall x, y | (x, y) in Mates(P') ensures (x, y) in Mates(P) {
      var B :| B in P' && x in B && y in B;
      if B == I || B == D {
        MatesOf(P, Y, x, y);
      } else {
        MatesOf(P, B, x, y);
      }
    }
    forall x, y | (x, y) in Mates(P) && (x, y) !in Mates(P') ensures x in Y && y in Y && ((x in X) != (y in X)) {
      var B :| B in P && x in B && y in B;
      if B != Y {
        MatesOf(P', B, x, y);
      } else if x in X && y in X {
        MatesOf(P', I, x, y);
      } else if x !in X && y !in X {
        MatesOf(P', D, x, y);
      }
    }
    var i :| i in I;
    var j :| j in D;
    MatesOf(P, Y, i, j);
    forall B | B in P' ensures !(i in B && j in B) {
      if B != I && B != D {
        assert B in P && B != Y;
        assert Y !! B;
      }
    }
  }

  /** What the worklist told apart before a split it still tells apart, and it tells apart the two new parts. */
  lemma SplitWorklist(W: seq<Block>, X: Block, Y: Block, x: State, y: State)
    requires X * Y != {} && Y - X != {}
    requires Apart(W, x, y) || (x in Y && y in Y && (x in X) != (y in X))
    ensures Apart(if Y in W then RemoveFirst(W, Y) + [X * Y, Y - X] else W + [Smaller(X * Y, Y - X)], x, y)
  {
    var I, D := X * Y, Y - X;
    var W' := if Y in W then RemoveFirst(W, Y) + [I, D] else W + [Smaller(I, D)];
    if x in Y && y in Y && (x in X) != (y in X) {
      if Y in W {
        assert I in W' && (x in I) != (y in I);
      } else {
        assert Smaller(I, D) in W';
        assert (x in Smaller(I, D)) != (y in Smaller(I, D));
      }
    } else {
      var T :| T in W && (x in T) != (y in T);
      if T != Y || Y !in W {
        assert T in W';
      } else {
        assert I in W' && D in W';
        assert (x in I) != (y in I) || (x in D) != (y in D);
      }
    }
  }

  /** A split keeps every guarded pair guarded. */
  lemma SplitGuards(P: set<Block>, S: set<State>, W: seq<Block>, X: Block, Y: Block)
    requires IsPartition(P, S) && Y in P
    ensures var (P', W') := SplitBlock(P, W, X, Y);
      forall x, y :: Guarded(P, W, x, y) ==> Guarded(P', W', x, y)
  {
    var (P', W') := SplitBlock(P, W, X, Y);
    if X * Y != {} && Y - X != {} {
      SplitMates(P, S, X, Y);
      forall x, y | Guarded(P, W, x, y) && (x, y) !in Mates(P') ensures Apart(W', x, y) {
        SplitWorklist(W, X, Y, x, y);
      }
    }
  }

  // ---------------------------------------------------------------------
  // One pass over the blocks for one set of predecessors

  /**
   * The partition part of the invariant of `for Y in P[:]`: the blocks still
   * to visit are blocks, the partition has only been refined, and the
   * worklist only changes along with the partition.
   */
  ghost predicate Refined(S: set<State>, P: set<Block>, W: seq<Block>, P': set<Block>, W': seq<Block>, todo: set<Block>)
  {
    && todo <= P' && IsPartition(P', S)
    && Mates(P') <= Mates(P)
    && (Mates(P') == Mates(P) ==> W' == W)
    && ({} in P' <==> {} in P)
  }

  /** The blocks already visited lie inside `X` or outside it. */
  predicate Visited(X: Block, P': set<Block>, todo: set<Block>)
  {
    forall B :: B in P' && B !in todo ==> B <= X || B !! X
  }

  /** Every pair guarded before the pass is still guarded. */
  ghost predicate StillGuarded(P: set<Block>, W: seq<Block>, P': set<Block>, W': seq<Block>)
  {
    forall x, y :: Guarded(P, W, x, y) ==> Guarded(P', W', x, y)
  }

  /** The invariant of `for Y in P[:]` with a fixed `X`. */
  ghost predicate PassInv(S: set<State>, P: set<Block>, W: seq<Block>, X: Block, P': set<Block>, W': seq<Block>, todo: set<Block>)
  {
    Refined(S, P, W, P', W', todo) && Visited(X, P', todo) && StillGuarded(P, W, P', W')
  }

  /** Visiting one more block keeps the partition part of the invariant. */
  lemma RefinedStep(S: set<State>, P: set<Block>, W: seq<Block>, X: Block, P': set<Block>, W': seq<Block>, todo: set<Block>, Y: Block)
    requires Refined(S, P, W, P', W', todo) && Y in todo
    ensures Refined(S, P, W, SplitBlock(P', W', X, Y).0, SplitBlock(P', W', X, Y).1, todo - {Y})
  {
    if X * Y != {} && Y - X != {} {
      var P2 := P' - {Y} + {X * Y, Y - X};
      SplitPartition(P', S, X, Y);
      SplitMates(P', S, X, Y);
      assert Mates(P2) <= Mates(P);
      assert Mates(P2) != Mates(P) by {
        assert Mates(P2) < Mates(P') <= Mates(P);
      }
      assert {} in P2 <==> {} in P' by {
        assert Y != {} && X * Y != {} && Y - X != {};
      }
    }
  }

  /** Visiting one more block keeps the invariant of the pass. */
  lemma PassStep(S: set<State>, P: set<Block>, W: seq<Block>, X: Block, P': set<Block>, W': seq<Block>, todo: set<Block>, Y: Block)
    requires PassInv(S, P, W, X, P', W', todo) && Y in todo
    ensures PassInv(S, P, W, X, SplitBlock(P', W', X, Y).0, SplitBlock(P', W', X, Y).1, todo - {Y})
  {
    RefinedStep(S, P, W, X, P', W', todo, Y);
    SplitStable(P', W', X, Y, todo);
    SplitGuards(P', S, W', X, Y);
  }

  /**
   * `for Y in P[:]` with a fixed `X`: afterwards every block lies inside `X`
   * or outside it, the partition has only been refined, and every guarded
   * pair stays guarded. When nothing is split, nothing changes.
   */
  method SplitPass(ghost S: set<State>, P: set<Block>, W: seq<Block>, X: Block) returns (P': set<Block>, W': seq<Block>)
    requires IsPartition(P, S)
    ensures IsPartition(P', S)
    ensures forall B :: B in P' ==> B <= X || B !! X
    ensures Mates(P') <= Mates(P)
    ensures Mates(P') == Mates(P) ==> W' == W
    ensures forall x, y :: Guarded(P, W, x, y) ==> Guarded(P', W', x, y)
    ensures {} in P' <==> {} in P
  {
    P', W' := P, W;
    var todo := P;
    while todo != {}
      invariant PassInv(S, P, W, X, P', W', todo)
      decreases todo
    {
      var Y :| Y in todo;
      PassStep(S, P, W, X, P', W', todo, Y);
      todo := todo - {Y};
      P', W' := SplitBlock(P', W', X, Y).0, SplitBlock(P', W', X, Y).1;
    }
  }

  /** The blocks a split leaves behind lie inside `X` or outside it. */
  lemma SplitStable(P: set<Block>, W: seq<Block>, X: Block, Y: Block, todo: set<Block>)
    requires Y in todo
    requires forall B :: B in P && B !in todo ==> B <= X || B !! X
    ensures forall B :: B in SplitBlock(P, W, X, Y).0 && B !in todo - {Y} ==> B <= X || B !! X
  {
    var I, D := X * Y, Y - X;
    if I == {} {
      forall z | z in Y ensures z !in X {
        assert z !in I;
      }
    } else if D == {} {
      forall z | z in Y ensures z in X {
        assert z !in D;
      }
    } else {
      assert I <= X && D !! X;
    }
  }

  // ---------------------------------------------------------------------
  // One splitter against every symbol

  /** The states whose transition on `c` exists and leads into `A`. */
  function Predecessors(d: Dfa, A: Block, c: Symbol): Block
  {
    set s | s in d.states && (s, c) in d.delta && d.delta[(s, c)] in A
  }

  /** After a pass for `c`, the splitter no longer needs `c`. */
  lemma PassDone(d: Dfa, P: set<Block>, W: seq<Block>, P': set<Block>, W': seq<Block>, A: Block, T: set<Symbol>, c: Symbol)
    requires Pending(d, P, W, A, T)
    requires forall B :: B in P' ==> B <= Predecessors(d, A, c) || B !! Predecessors(d, A, c)
    requires forall B :: B in P' ==> B <= d.states
    requires Mates(P') <= Mates(P)
    requires forall x, y :: Guarded(P, W, x, y) ==> Guarded(P', W', x, y)
    ensures Pending(d, P', W', A, T - {c})
  {
    var X := Predecessors(d, A, c);
    forall p, q, c' | (p, q) in Mates(P') && c' in d.alphabet && (p, c') in d.delta && (q, c') in d.delta
      ensures Guarded(P', W', d.delta[(p, c')], d.delta[(q, c')])
        || (c' in T - {c} && (d.delta[(p, c')] in A) != (d.delta[(q, c')] in A))
    {
      if c' == c {
        var B :| B in P' && p in B && q in B;
        assert (p in X) == (q in X);
      }
    }
  }

  /**
   * The body of `while W`, after `A = W.pop()`: the pass for every symbol of
   * the alphabet. Afterwards `A` is no longer needed to keep pairs guarded.
   */
  method ApplySplitter(d: Dfa, P: set<Block>, W: seq<Block>, A: Block) returns (P': set<Block>, W': seq<Block>)
    requires IsPartition(P, d.states)
    requires Pending(d, P, W, A, d.alphabet)
    ensures IsPartition(P', d.states)
    ensures Pending(d, P', W', A, {})
    ensures Mates(P') <= Mates(P)
    ensures Mates(P') == Mates(P) ==> W' == W
    ensures {} in P' <==> {} in P
  {
    P', W' := P, W;
    var todo := d.alphabet;
    while todo != {}
      invariant todo <= d.alphabet
      invariant IsPartition(P', d.states)
      invariant Pending(d, P', W', A, todo)
      invariant Mates(P') <= Mates(P)
      invariant Mates(P') == Mates(P) ==> W' == W
      invariant {} in P' <==> {} in P
      decreases todo
    {
      var c :| c in todo;
      var X := Predecessors(d, A, c);
      var P1, W1 := SplitPass(d.states, P', W', X);
      PassDone(d, P', W', P1, W1, A, todo, c);
      P', W' := P1, W1;
      todo := todo - {c};
    }
  }

  // ---------------------------------------------------------------------
  // The loop

  /** Popping `A` off the worklist leaves it pending on every symbol. */
  lemma PopPending(d: Dfa, P: set<Block>, W: seq<Block>)
    requires |W| > 0 && Pending(d, P, W, {}, {})
    ensures Pending(d, P, W[..|W| - 1], W[|W| - 1], d.alphabet)
  {
    var A, W' := W[|W| - 1], W[..|W| - 1];
    forall x, y | Apart(W, x, y) ensures Apart(W', x, y) || (x in A) != (y in A) {
      var T :| T in W && (x in T) != (y in T);
      if T != A {
        var i :| 0 <= i < |W| && W[i] == T;
        assert i < |W| - 1 && W'[i] == T;
      }
    }
  }

  /** The initial partition `[accept, states - accept]` with `W = [accept]`. */
  lemma InitialState(d: Dfa)
    requires WellFormed(d)
    ensures var P := {d.accept, d.states - d.accept};
      && IsPartition(P, d.states)
      && NoMix(d, P)
      && Pending(d, P, [d.accept], {}, {})
      && ({} in P <==> d.accept == {} || d.states <= d.accept)
  {
    if d.states <= d.accept {
      assert d.states - d.accept == {};
    } else {
      var x :| x in d.states && x !in d.accept;
      assert x in d.states - d.accept;
    }
    var P := {d.accept, d.states - d.accept};
    forall x | x in d.states ensures (x, x) in Mates(P) {
      if x in d.accept { MatesOf(P, d.accept, x, x); } else { MatesOf(P, d.states - d.accept, x, x); }
    }
    forall p, q, c | (p, q) in Mates(P) && c in d.alphabet && (p, c) in d.delta && (q, c) in d.delta
      ensures Guarded(P, [d.accept], d.delta[(p, c)], d.delta[(q, c)])
    {
      var x, y := d.delta[(p, c)], d.delta[(q, c)];
      if x in d.accept && y in d.accept {
        MatesOf(P, d.accept, x, y);
      } else if x !in d.accept && y !in d.accept {
        MatesOf(P, d.states - d.accept, x, y);
      } else {
        assert d.accept in [d.accept];
      }
    }
  }

  /** The invariant of `while W`. */
  ghost predicate Invariant(d: Dfa, P: set<Block>, W: seq<Block>)
  {
    && IsPartition(P, d.states)
    && NoMix(d, P)
    && Pending(d, P, W, {}, {})
  }

  /**
   * One round of `while W`: pop the last splitter and apply it. The
   * invariant is kept, and the partition is strictly refined or else the
   * worklist has shrunk.
   */
  method Round(d: Dfa, P: set<Block>, W: seq<Block>) returns (P': set<Block>, W': seq<Block>)
    requires Invariant(d, P, W) && |W| > 0
    ensures Invariant(d, P', W')
    ensures Mates(P') < Mates(P) || (Mates(P') == Mates(P) && |W'| < |W|)
    ensures {} in P' <==> {} in P
  {
    var A := W[|W| - 1];
    PopPending(d, P, W);
    P', W' := ApplySplitter(d, P, W[..|W| - 1], A);
    NoMixRefined(d, P, P');
    SplitterSpent(d, P', W', A);
  }

  /**
   * The refinement loop of `minimize`: the blocks it ends with partition the
   * states, never mix accepting and non-accepting states, and are consistent
   * with the transitions. An empty block is among them exactly when no state
   * or every state accepts.
   */
  method Refine(d: Dfa) returns (P: set<Block>)
    requires WellFormed(d)
    ensures IsPartition(P, d.states)
    ensures NoMix(d, P)
    ensures Consistent(d, P)
    ensures {} in P <==> d.accept == {} || d.states <= d.accept
  {
    P := {d.accept, d.states - d.accept};
    var W := [d.accept];
    InitialState(d);
    while |W| > 0
      invariant Invariant(d, P, W)
      invariant {} in P <==> d.accept == {} || d.states <= d.accept
      decreases Mates(P), |W|
    {
      P, W := Round(d, P, W);
    }
    ConsistentAtEnd(d, P);
  }

  /** A splitter with no symbols left to apply guards nothing. */
  lemma SplitterSpent(d: Dfa, P: set<Block>, W: seq<Block>, A: Block)
    requires Pending(d, P, W, A, {})
    ensures Pending(d, P, W, {}, {})
  {
  }

  /** With the worklist empty and no splitter pending, the partition is consistent. */
  lemma ConsistentAtEnd(d: Dfa, P: set<Block>)
    requires Pending(d, P, [], {}, {})
    ensures Consistent(d, P)
  {
    forall p, q, c | (p, q) in Mates(P) && c in d.alphabet && (p, c) in d.delta && (q, c) in d.delta
      ensures (d.delta[(p, c)], d.delta[(q, c)]) in Mates(P)
    {
      assert !Apart([], d.delta[(p, c)], d.delta[(q, c)]);
    }
  }

  /** A refinement of a partition that does not mix accepting states does not mix them either. */
  lemma NoMixRefined(d: Dfa, P: set<Block>, P': set<Block>)
    requires NoMix(d, P) && Mates(P') <= Mates(P)
    ensures NoMix(d, P')
  {
  }
}
