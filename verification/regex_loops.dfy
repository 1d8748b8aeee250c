/**
 * The words accepted by the automata `regex_to_nfa` of nfa.py builds for the
 * looping forms its docstring names, `(ab)*` and `ab+`, and for a lone `(`,
 * which the parser leaves over as a literal.
 */
module RegexLoops {

  import opened Wrappers
  import opened AutomataTypes
  import opened FreshNames
  import opened NfaSim
  import opened Fragments
  import opened Postfix
  import opened Thompson
  import opened RegexExamples
  import opened RegexLanguages

  // ---------------------------------------------------------------------
  // Edges of the composite fragments

  /** The edges of `.`: both operands' edges, and an epsilon edge from the first's accept states to the second's start. */
  lemma ConcatSucc(f1: Frag, f2: Frag, q: State, b: Symbol)
    ensures Succ(ConcatFrag(f1, f2).delta, q, b) ==
      if q in f1.accept && b == Eps then Succ(f1.delta, q, b) + Succ(f2.delta, q, b) + {f2.start}
      else Succ(f1.delta, q, b) + Succ(f2.delta, q, b)
  {
  }

  /** The edges of `.` at one key, given those of its operands. */
  lemma ConcatTable(f1: Frag, f2: Frag, q: State, b: Symbol, T1: set<State>, T2: set<State>)
    requires Succ(f1.delta, q, b) == T1 && Succ(f2.delta, q, b) == T2
    ensures Succ(ConcatFrag(f1, f2).delta, q, b) == if q in f1.accept && b == Eps then T1 + T2 + {f2.start} else T1 + T2
  {
    ConcatSucc(f1, f2, q, b);
  }

  /** The edges of `*`: the fresh start's two branches, and the loop-back and exit edges from the old accept states. */
  lemma StarSuccAt(f: Frag, n: nat, q: State, b: Symbol)
    requires StateName(n) !in f.accept
    ensures Succ(StarFrag(f, n).delta, q, b) ==
      if q == StateName(n) && b == Eps then {f.start, StateName(n + 1)}
      else if q in f.accept && b == Eps then Succ(f.delta, q, b) + {f.start, StateName(n + 1)}
      else Succ(f.delta, q, b)
  {
    SetEdgeSucc(f.delta, StateName(n), {f.start, StateName(n + 1)});
  }

  /** The symbols `a` and `b` differ, and neither is the epsilon marker. */
  lemma SymbolsDistinct()
    ensures "a" != "b" && "a" != Eps && "b" != Eps
  {
    assert "a"[0] != "b"[0];
  }

  /** The successors of a set of four states. */
  lemma ImageOf4(delta: Edges, x: State, y: State, z: State, u: State, a: Symbol)
    ensures Image(delta, {x, y, z, u}, a) == Succ(delta, x, a) + Succ(delta, y, a) + Succ(delta, z, a) + Succ(delta, u, a)
  {
  }

  /** One step of the simulation from the empty set leads nowhere. */
  lemma StepOfEmpty(nfa: Nfa, c: Symbol)
    ensures Step(nfa, {}, c) == {}
  {
    ImageOfEmpty(nfa.delta, c);
    ClosureOfClosed(nfa.delta, {});
  }

  /** The set after one more symbol is one simulation step from the set before it. */
  lemma RunStep(nfa: Nfa, w: seq<Symbol>, c: Symbol)
    ensures Run(nfa, w + [c]) == Step(nfa, Run(nfa, w), c)
  {
    RunSnoc(nfa, w, c);
  }

  // ---------------------------------------------------------------------
  // `ab`: the concatenation inside the group of `(ab)*`

  /** The fragment for `ab` when the counter starts at `n`. */
  function ConcatAB(n: nat): Frag
  {
    ConcatFrag(LiteralFrag('a', n), LiteralFrag('b', n + 2))
  }

  /** `S(n)` reads `a` into `S(n+1)`, which leads by epsilon to `S(n+2)`, which reads `b` into `S(n+3)`. */
  lemma ConcatABTable(n: nat, q: State, b: Symbol)
    ensures Succ(ConcatAB(n).delta, q, b) ==
      if q == StateName(n) && b == "a" then {StateName(n + 1)}
      else if q == StateName(n + 1) && b == Eps then {StateName(n + 2)}
      else if q == StateName(n + 2) && b == "b" then {StateName(n + 3)}
      else {}
  {
    SixDistinct(n);
    SymbolsDistinct();
    ConcatSucc(LiteralFrag('a', n), LiteralFrag('b', n + 2), q, b);
    LiteralSucc('a', n, q, b);
    LiteralSucc('b', n + 2, q, b);
  }

  // ---------------------------------------------------------------------
  // `(ab)*`

  /** The fragment for `(ab)*` when the counter starts at `n`. */
  function StarOfAB(n: nat): Frag
  {
    StarFrag(ConcatAB(n), n + 4)
  }

  /** The fresh start `S(n+4)` branches by epsilon to `S(n)` and to the end `S(n+5)`, and reads nothing. */
  lemma StarOfABStart(n: nat, b: Symbol)
    ensures Succ(StarOfAB(n).delta, StateName(n + 4), b) ==
      if b == Eps then {StateName(n), StateName(n + 5)} else {}
  {
    SixDistinct(n);
    StarSuccAt(ConcatAB(n), n + 4, StateName(n + 4), b);
    ConcatABTable(n, StateName(n + 4), b);
  }

  /** Inside the loop: the edges of `ab`, and `S(n+3)` loops back to `S(n)` and on to `S(n+5)`. */
  lemma StarOfABInner(n: nat, q: State, b: Symbol)
    requires q != StateName(n + 4)
    ensures Succ(StarOfAB(n).delta, q, b) ==
      if q == StateName(n) && b == "a" then {StateName(n + 1)}
      else if q == StateName(n + 1) && b == Eps then {StateName(n + 2)}
      else if q == StateName(n + 2) && b == "b" then {StateName(n + 3)}
      else if q == StateName(n + 3) && b == Eps then {StateName(n), StateName(n + 5)}
      else {}
  {
    SixDistinct(n);
    StarSuccAt(ConcatAB(n), n + 4, q, b);
    ConcatABTable(n, q, b);
  }

  /** The transition table of `(ab)*`. */
  lemma StarOfABTable(n: nat, q: State, b: Symbol)
    ensures Succ(StarOfAB(n).delta, q, b) ==
      if q == StateName(n + 4) && b == Eps then {StateName(n), StateName(n + 5)}
      else if q == StateName(n) && b == "a" then {StateName(n + 1)}
      else if q == StateName(n + 1) && b == Eps then {StateName(n + 2)}
      else if q == StateName(n + 2) && b == "b" then {StateName(n + 3)}
      else if q == StateName(n + 3) && b == Eps then {StateName(n), StateName(n + 5)}
      else {}
  {
    if q == StateName(n + 4) {
      StarOfABStart(n, b);
    } else {
      StarOfABInner(n, q, b);
    }
  }

  /** Before any symbol, and after each complete `ab`: the loop's entry and its end. */
  function StarOfABEntry(n: nat): set<State>
  {
    {StateName(n + 4), StateName(n), StateName(n + 5)}
  }

  function StarOfABAgain(n: nat): set<State>
  {
    {StateName(n + 3), StateName(n), StateName(n + 5)}
  }

  /** Halfway through an `ab`. */
  function StarOfABHalf(n: nat): set<State>
  {
    {StateName(n + 1), StateName(n + 2)}
  }

  lemma StarOfABRunEmpty(n: nat)
    ensures Run(AsNfa(StarOfAB(n)), []) == StarOfABEntry(n)
  {
    var d, s0, s4, s5 := StarOfAB(n).delta, StateName(n), StateName(n + 4), StateName(n + 5);
    SixDistinct(n);
    assert {s4} + Image(d, {s4}, Eps) == StarOfABEntry(n) by {
      ImageOf1(d, s4, Eps);
      StarOfABTable(n, s4, Eps);
    }
    assert Image(d, StarOfABEntry(n), Eps) <= StarOfABEntry(n) by {
      ImageOf3(d, s4, s0, s5, Eps);
      StarOfABTable(n, s4, Eps);
      StarOfABTable(n, s0, Eps);
      StarOfABTable(n, s5, Eps);
    }
    ClosureUnfold(d, {s4});
    ClosureOfClosed(d, StarOfABEntry(n));
  }

  /** `S(n+1)` closes to itself and `S(n+2)`. */
  lemma StarOfABClosesHalf(n: nat)
    ensures Closure(StarOfAB(n).delta, {StateName(n + 1)}) == StarOfABHalf(n)
  {
    var d, s1, s2 := StarOfAB(n).delta, StateName(n + 1), StateName(n + 2);
    SixDistinct(n);
    assert {s1} + Image(d, {s1}, Eps) == StarOfABHalf(n) by {
      ImageOf1(d, s1, Eps);
      StarOfABTable(n, s1, Eps);
    }
    assert Image(d, StarOfABHalf(n), Eps) <= StarOfABHalf(n) by {
      ImageOf2(d, s1, s2, Eps);
      StarOfABTable(n, s1, Eps);
      StarOfABTable(n, s2, Eps);
    }
    ClosureUnfold(d, {s1});
    ClosureOfClosed(d, StarOfABHalf(n));
  }

  /** `S(n+3)` closes to itself, the loop's start `S(n)` and the end `S(n+5)`. */
  lemma StarOfABClosesAgain(n: nat)
    ensures Closure(StarOfAB(n).delta, {StateName(n + 3)}) == StarOfABAgain(n)
  {
    var d, s0, s3, s5 := StarOfAB(n).delta, StateName(n), StateName(n + 3), StateName(n + 5);
    SixDistinct(n);
    assert {s3} + Image(d, {s3}, Eps) == StarOfABAgain(n) by {
      ImageOf1(d, s3, Eps);
      StarOfABTable(n, s3, Eps);
    }
    assert Image(d, StarOfABAgain(n), Eps) <= StarOfABAgain(n) by {
      ImageOf3(d, s3, s0, s5, Eps);
      StarOfABTable(n, s3, Eps);
      StarOfABTable(n, s0, Eps);
      StarOfABTable(n, s5, Eps);
    }
    ClosureUnfold(d, {s3});
    ClosureOfClosed(d, StarOfABAgain(n));
  }

  /** On a symbol, only `S(n)` reads `a` and only `S(n+2)` reads `b`. */
  lemma StarOfABReads(n: nat, q: State, c: Symbol)
    requires c != Eps
    ensures Succ(StarOfAB(n).delta, q, c) ==
      if q == StateName(n) && c == "a" then {StateName(n + 1)}
      else if q == StateName(n + 2) && c == "b" then {StateName(n + 3)}
      else {}
  {
    StarOfABTable(n, q, c);
  }

  /** A state other than `S(n)` and `S(n+2)` reads no symbol. */
  lemma StarOfABReadsNothing(n: nat, q: State, c: Symbol)
    requires c != Eps && q != StateName(n) && q != StateName(n + 2)
    ensures Succ(StarOfAB(n).delta, q, c) == {}
  {
    StarOfABReads(n, q, c);
  }

  /** `S(n)` reads only `a`. */
  lemma StarOfABReadsA0(n: nat, c: Symbol)
    requires c != Eps
    ensures Succ(StarOfAB(n).delta, StateName(n), c) == if c == "a" then {StateName(n + 1)} else {}
  {
    StateNameInjective(n, n + 2);
    StarOfABReads(n, StateName(n), c);
  }

  /** Among `x`, `S(n)` and `S(n+5)`, only `S(n)` has an `a`-edge, when `x` reads nothing. */
  lemma StarOfABImageA(n: nat, x: State, c: Symbol)
    requires x != StateName(n) && x != StateName(n + 2)
    requires c != Eps
    ensures Image(StarOfAB(n).delta, {x, StateName(n), StateName(n + 5)}, c) == if c == "a" then {StateName(n + 1)} else {}
  {
    var d, s0, s5 := StarOfAB(n).delta, StateName(n), StateName(n + 5);
    StateNameInjective(n + 5, n);
    StateNameInjective(n + 5, n + 2);
    StarOfABReadsNothing(n, x, c);
    StarOfABReadsA0(n, c);
    StarOfABReadsNothing(n, s5, c);
    var A: set<State> := if c == "a" then {StateName(n + 1)} else {};
    ImageOfThree(d, x, s0, s5, c, A, {});
  }

  /** From the entry or from the end of an `ab`, only `a` moves on, to halfway. */
  lemma StarOfABReadsA(n: nat, X: set<State>, c: Symbol)
    requires X == StarOfABEntry(n) || X == StarOfABAgain(n)
    requires c != Eps
    ensures Step(AsNfa(StarOfAB(n)), X, c) == if c == "a" then StarOfABHalf(n) else {}
  {
    var x := if X == StarOfABEntry(n) then StateName(n + 4) else StateName(n + 3);
    SixDistinct(n);
    StarOfABImageA(n, x, c);
    if c == "a" {
      StarOfABClosesHalf(n);
    } else {
      StepOfEmpty(AsNfa(StarOfAB(n)), c);
    }
  }

  /** Halfway, only `b` moves on, to the end of the `ab`. */
  lemma StarOfABReadsB(n: nat, c: Symbol)
    requires c != Eps
    ensures Step(AsNfa(StarOfAB(n)), StarOfABHalf(n), c) == if c == "b" then StarOfABAgain(n) else {}
  {
    var d := StarOfAB(n).delta;
    assert Image(d, StarOfABHalf(n), c) == if c == "b" then {StateName(n + 3)} else {} by {
      SixDistinct(n);
      ImageOf2(d, StateName(n + 1), StateName(n + 2), c);
      StarOfABTable(n, StateName(n + 1), c);
      StarOfABTable(n, StateName(n + 2), c);
    }
    if c == "b" {
      StarOfABClosesAgain(n);
    } else {
      StepOfEmpty(AsNfa(StarOfAB(n)), c);
    }
  }

  /** The words of `(ab)*`: of even length, alternating `a` and `b`, starting with `a`. */
  predicate AbRepeated(w: seq<Symbol>)
  {
    |w| % 2 == 0 && forall i :: 0 <= i < |w| ==> w[i] == if i % 2 == 0 then "a" else "b"
  }

  /** A word of `(ab)*` ends in `ab` after a shorter word of `(ab)*`. */
  lemma AbRepeatedSnoc2(u: seq<Symbol>, x: Symbol, y: Symbol)
    ensures AbRepeated(u + [x, y]) <==> AbRepeated(u) && x == "a" && y == "b"
  {
    var w := u + [x, y];
    assert forall i :: 0 <= i < |u| ==> w[i] == u[i];
    if AbRepeated(w) {
      assert w[|u|] == x && w[|u| + 1] == y;
    }
  }

  /** The set the simulation of `(ab)*` holds after `w`: the entry, the end of an `ab`, halfway, or nothing. */
  function StarOfABAfter(n: nat, w: seq<Symbol>): set<State>
  {
    if |w| == 0 then StarOfABEntry(n)
    else if AbRepeated(w) then StarOfABAgain(n)
    else if AbRepeated(w[..|w| - 1]) && w[|w| - 1] == "a" then StarOfABHalf(n)
    else {}
  }

  /** How one more symbol moves a word between the classes `StarOfABAfter` distinguishes. */
  lemma AbRepeatedStep(v: seq<Symbol>, c: Symbol)
    ensures (v + [c])[..|v|] == v
    ensures AbRepeated(v + [c]) <==> |v| > 0 && AbRepeated(v[..|v| - 1]) && v[|v| - 1] == "a" && c == "b"
    ensures AbRepeated(v + [c]) ==> !AbRepeated(v)
  {
    assert (v + [c])[..|v|] == v;
    if |v| > 0 {
      var u := v[..|v| - 1];
      assert v + [c] == u + [v[|v| - 1], c];
      AbRepeatedSnoc2(u, v[|v| - 1], c);
    }
  }

  /** The class of `v + [c]`: an `a` after a word of `(ab)*` goes halfway, a `b` after halfway completes an `ab`. */
  lemma StarOfABAfterSnoc(n: nat, v: seq<Symbol>, c: Symbol)
    ensures StarOfABAfter(n, v + [c]) ==
      if |v| == 0 || AbRepeated(v) then (if c == "a" then StarOfABHalf(n) else {})
      else if AbRepeated(v[..|v| - 1]) && v[|v| - 1] == "a" then (if c == "b" then StarOfABAgain(n) else {})
      else {}
  {
    AbRepeatedStep(v, c);
    if |v| == 0 {
      assert !AbRepeated(v + [c]);
      assert AbRepeated(v);
    }
  }

  /** One simulation step of `(ab)*` follows the classes of the word. */
  lemma StarOfABAfterStep(n: nat, v: seq<Symbol>, c: Symbol)
    requires c != Eps
    ensures Step(AsNfa(StarOfAB(n)), StarOfABAfter(n, v), c) == StarOfABAfter(n, v + [c])
  {
    StarOfABAfterSnoc(n, v, c);
    if |v| == 0 {
      StarOfABReadsA(n, StarOfABEntry(n), c);
    } else if AbRepeated(v) {
      StarOfABReadsA(n, StarOfABAgain(n), c);
    } else if AbRepeated(v[..|v| - 1]) && v[|v| - 1] == "a" {
      StarOfABReadsB(n, c);
    } else {
      StepOfEmpty(AsNfa(StarOfAB(n)), c);
    }
  }

  /** The simulation of `(ab)*` after `w` holds the set `StarOfABAfter` names. */
  lemma {:induction false} StarOfABRun(n: nat, w: seq<Symbol>)
    requires NoEps(w)
    ensures Run(AsNfa(StarOfAB(n)), w) == StarOfABAfter(n, w)
    decreases |w|
  {
    if |w| == 0 {
      StarOfABRunEmpty(n);
    } else {
      var v, c := w[..|w| - 1], w[|w| - 1];
      assert w == v + [c];
      StarOfABRun(n, v);
      RunStep(AsNfa(StarOfAB(n)), v, c);
      StarOfABAfterStep(n, v, c);
    }
  }

  /** The end `S(n+5)` is held exactly after the words of `(ab)*`. */
  lemma StarOfABEndAfter(n: nat, w: seq<Symbol>)
    ensures StateName(n + 5) in StarOfABAfter(n, w) <==> AbRepeated(w)
  {
    StateNameInjective(n + 5, n + 1);
    StateNameInjective(n + 5, n + 2);
  }

  /** `(ab)*` accepts exactly the words of `(ab)*`. */
  lemma StarOfABLanguage(n: nat, w: seq<Symbol>)
    requires NoEps(w)
    ensures Accepts(AsNfa(StarOfAB(n)), w) <==> AbRepeated(w)
  {
    var nfa := AsNfa(StarOfAB(n));
    assert nfa.accept == {StateName(n + 5)};
    AcceptsAtOne(nfa, w, StateName(n + 5));
    StarOfABRun(n, w);
    StarOfABEndAfter(n, w);
  }

  /** Reducing `ab.` joins the two literals without fresh states. */
  lemma ReduceOfConcat()
    ensures ReduceAll("ab.") == Success(Build([ConcatAB(0)], 4))
  {
    assert "ab" + ['.'] == "ab.";
    ReduceOfAB();
    ReduceAllSnoc("ab", '.');
    var st := [LiteralFrag('a', 0), LiteralFrag('b', 2)];
    assert st[..0] + [ConcatFrag(st[0], st[1])] == [ConcatAB(0)];
  }

  /** Reducing `ab.*` wraps the concatenation with fresh states 4 and 5. */
  lemma ReduceOfStarredGroup()
    ensures ReduceAll("ab.*") == Success(Build([StarOfAB(0)], 6))
  {
    assert "ab." + ['*'] == "ab.*";
    ReduceOfConcat();
    ReduceAllSnoc("ab.", '*');
    var st := [ConcatAB(0)];
    assert st[..0] + [StarFrag(st[0], 4)] == [StarOfAB(0)];
  }

  /** `regex_to_nfa("(ab)*")` builds the automaton of `StarOfAB(0)`. */
  lemma StarredGroupBuilt()
    ensures RegexToNfa("(ab)*") == Success(AsNfa(StarOfAB(0)))
  {
    PostfixOfStarredGroup();
    ReduceOfStarredGroup();
  }

  /** The automaton `regex_to_nfa("(ab)*")` accepts exactly the words of `(ab)*`. */
  lemma StarredGroupRegexLanguage(w: seq<Symbol>)
    requires NoEps(w)
    ensures RegexToNfa("(ab)*").Success?
    ensures Accepts(RegexToNfa("(ab)*").value, w) <==> AbRepeated(w)
  {
    StarredGroupBuilt();
    StarOfABLanguage(0, w);
  }

  /** `(ab)*` accepts the empty word, `ab` and `abab`. */
  lemma StarredGroupAccepts()
    ensures RegexToNfa("(ab)*").Success?
    ensures var nfa := RegexToNfa("(ab)*").value;
      Accepts(nfa, []) && Accepts(nfa, ["a", "b"]) && Accepts(nfa, ["a", "b", "a", "b"])
  {
    var ab: seq<Symbol> := ["a", "b"];
    SymbolsDistinct();
    AbRepeatedSnoc2([], "a", "b");
    assert [] + ["a", "b"] == ab;
    AbRepeatedSnoc2(ab, "a", "b");
    assert ab + ["a", "b"] == ["a", "b", "a", "b"];
    StarredGroupRegexLanguage([]);
    StarredGroupRegexLanguage(ab);
    StarredGroupRegexLanguage(["a", "b", "a", "b"]);
  }

  /** `(ab)*` rejects `a` and `aba`. */
  lemma StarredGroupRejects()
    ensures RegexToNfa("(ab)*").Success?
    ensures var nfa := RegexToNfa("(ab)*").value;
      !Accepts(nfa, ["a"]) && !Accepts(nfa, ["a", "b", "a"])
  {
    SymbolsDistinct();
    assert !AbRepeated(["a"]) && !AbRepeated(["a", "b", "a"]);
    StarredGroupRegexLanguage(["a"]);
    StarredGroupRegexLanguage(["a", "b", "a"]);
  }

  // ---------------------------------------------------------------------
  // `ab+`

  /** The fragment for `b+` inside `ab+`: the literal on `S(n+2)`, `S(n+3)` and its starred copy on `S(n+4)`, `S(n+5)`. */
  function PlusOfB(n: nat): Frag
  {
    PlusFrag(LiteralFrag('b', n + 2), n + 4)
  }

  /** The fragment for `ab+` when the counter starts at `n`. */
  function APlusB(n: nat): Frag
  {
    ConcatFrag(LiteralFrag('a', n), PlusOfB(n))
  }

  /** The edges of `b+`: `S(n+2)` reads `b`, and the copy's wiring loops back to `S(n+2)` or leaves to `S(n+5)`. */
  function PlusOfBSucc(n: nat, q: State, b: Symbol): set<State>
  {
    if q == StateName(n + 2) && b == "b" then {StateName(n + 3)}
    else if q == StateName(n + 3) && b == Eps then {StateName(n + 2), StateName(n + 5), StateName(n + 4)}
    else if q == StateName(n + 4) && b == Eps then {StateName(n + 2), StateName(n + 5)}
    else {}
  }

  /** The starred copy of the `b` literal inside `b+`. */
  lemma StarOfBTable(n: nat, q: State, b: Symbol)
    ensures Succ(StarFrag(LiteralFrag('b', n + 2), n + 4).delta, q, b) ==
      if q == StateName(n + 4) && b == Eps then {StateName(n + 2), StateName(n + 5)}
      else if q == StateName(n + 3) && b == Eps then {StateName(n + 2), StateName(n + 5)}
      else if q == StateName(n + 2) && b == "b" then {StateName(n + 3)}
      else {}
  {
    SixDistinct(n);
    StarSuccAt(LiteralFrag('b', n + 2), n + 4, q, b);
    LiteralSucc('b', n + 2, q, b);
  }

  /** The transition table of `b+`: the literal, its starred copy, and the edge from the literal's end to the copy's start. */
  lemma PlusOfBTable(n: nat, q: State, b: Symbol)
    ensures Succ(PlusOfB(n).delta, q, b) == PlusOfBSucc(n, q, b)
  {
    var lb := LiteralFrag('b', n + 2);
    var star := StarFrag(lb, n + 4);
    SixDistinct(n);
    LiteralSucc('b', n + 2, q, b);
    StarOfBTable(n, q, b);
    ConcatTable(lb, star, q, b, Succ(lb.delta, q, b), Succ(star.delta, q, b));
  }

  /** The transition table of `ab+`: `S(n)` reads `a`, `S(n+2)` reads `b`, and epsilon edges join the rest. */
  function APlusBSucc(n: nat, q: State, b: Symbol): set<State>
  {
    if q == StateName(n) && b == "a" then {StateName(n + 1)}
    else if q == StateName(n + 1) && b == Eps then {StateName(n + 2)}
    else if q == StateName(n + 2) && b == "b" then {StateName(n + 3)}
    else if q == StateName(n + 3) && b == Eps then {StateName(n + 2), StateName(n + 4), StateName(n + 5)}
    else if q == StateName(n + 4) && b == Eps then {StateName(n + 2), StateName(n + 5)}
    else {}
  }

  /** The edges `d` are those of `ab+` on the names from `S(n)`. */
  ghost predicate ActsAsAPlusB(d: Edges, n: nat)
  {
    forall q, b :: Succ(d, q, b) == APlusBSucc(n, q, b)
  }

  /** The edges of the `a` literal and of `b+`, joined by the epsilon edge from `S(n+1)` to `S(n+2)`, make the table of `ab+`. */
  lemma APlusBJoin(n: nat, q: State, b: Symbol)
    ensures var T1 := if q == StateName(n) && b == "a" then {StateName(n + 1)} else {};
      var T2 := PlusOfBSucc(n, q, b);
      (if q in {StateName(n + 1)} && b == Eps then T1 + T2 + {StateName(n + 2)} else T1 + T2) == APlusBSucc(n, q, b)
  {
    SixDistinct(n);
    SymbolsDistinct();
  }

  /** The automaton built for `ab+` has the table `APlusBSucc`. */
  lemma APlusBTable(n: nat, q: State, b: Symbol)
    ensures Succ(APlusB(n).delta, q, b) == APlusBSucc(n, q, b)
  {
    var la, pb := LiteralFrag('a', n), PlusOfB(n);
    var T1 := if q == StateName(n) && b == "a" then {StateName(n + 1)} else {};
    LiteralSucc('a', n, q, b);
    PlusOfBTable(n, q, b);
    assert pb.start == StateName(n + 2) && la.accept == {StateName(n + 1)};
    ConcatTable(la, pb, q, b, T1, PlusOfBSucc(n, q, b));
    APlusBJoin(n, q, b);
  }

  lemma APlusBActs(n: nat)
    ensures ActsAsAPlusB(APlusB(n).delta, n)
  {
    forall q, b ensures Succ(APlusB(n).delta, q, b) == APlusBSucc(n, q, b) {
      APlusBTable(n, q, b);
    }
  }

  /** On a symbol, only `S(n)` reads `a` and only `S(n+2)` reads `b`. */
  lemma APlusBReads(d: Edges, n: nat, q: State, c: Symbol)
    requires ActsAsAPlusB(d, n) && c != Eps
    ensures Succ(d, q, c) ==
      if q == StateName(n) && c == "a" then {StateName(n + 1)}
      else if q == StateName(n + 2) && c == "b" then {StateName(n + 3)}
      else {}
  {
    assert Succ(d, q, c) == APlusBSucc(n, q, c);
  }

  /** After `a`: halfway to the first `b`. */
  function APlusBHalf(n: nat): set<State>
  {
    {StateName(n + 1), StateName(n + 2)}
  }

  /** After `a` and at least one `b`: ready for another `b`, and accepting. */
  function APlusBLoop(n: nat): set<State>
  {
    {StateName(n + 3), StateName(n + 2), StateName(n + 4), StateName(n + 5)}
  }

  lemma APlusBRunEmpty(nfa: Nfa, n: nat)
    requires ActsAsAPlusB(nfa.delta, n) && nfa.start == StateName(n)
    ensures Run(nfa, []) == {StateName(n)}
  {
    var d := nfa.delta;
    assert Image(d, {StateName(n)}, Eps) == {} by {
      SixDistinct(n);
      ImageOf1(d, StateName(n), Eps);
      assert Succ(d, StateName(n), Eps) == APlusBSucc(n, StateName(n), Eps);
    }
    ClosureOfClosed(d, {StateName(n)});
  }

  /** `S(n+1)` closes to itself and `S(n+2)`. */
  lemma APlusBClosesHalf(d: Edges, n: nat)
    requires ActsAsAPlusB(d, n)
    ensures Closure(d, {StateName(n + 1)}) == APlusBHalf(n)
  {
    var s1, s2 := StateName(n + 1), StateName(n + 2);
    SixDistinct(n);
    assert {s1} + Image(d, {s1}, Eps) == APlusBHalf(n) by {
      ImageOf1(d, s1, Eps);
      assert Succ(d, s1, Eps) == APlusBSucc(n, s1, Eps);
    }
    assert Image(d, APlusBHalf(n), Eps) <= APlusBHalf(n) by {
      ImageOf2(d, s1, s2, Eps);
      assert Succ(d, s1, Eps) == APlusBSucc(n, s1, Eps);
      assert Succ(d, s2, Eps) == APlusBSucc(n, s2, Eps);
    }
    ClosureUnfold(d, {s1});
    ClosureOfClosed(d, APlusBHalf(n));
  }

  /** The epsilon edges out of the loop's states stay inside it. */
  lemma APlusBLoopEps(d: Edges, n: nat)
    requires ActsAsAPlusB(d, n)
    ensures Succ(d, StateName(n + 3), Eps) == {StateName(n + 2), StateName(n + 4), StateName(n + 5)}
    ensures Succ(d, StateName(n + 2), Eps) == {}
    ensures Succ(d, StateName(n + 4), Eps) == {StateName(n + 2), StateName(n + 5)}
    ensures Succ(d, StateName(n + 5), Eps) == {}
  {
    SixDistinct(n);
    assert Succ(d, StateName(n + 3), Eps) == APlusBSucc(n, StateName(n + 3), Eps);
    assert Succ(d, StateName(n + 2), Eps) == APlusBSucc(n, StateName(n + 2), Eps);
    assert Succ(d, StateName(n + 4), Eps) == APlusBSucc(n, StateName(n + 4), Eps);
    assert Succ(d, StateName(n + 5), Eps) == APlusBSucc(n, StateName(n + 5), Eps);
  }

  /** `S(n+3)` closes to itself, `S(n+2)` and both states of the starred copy. */
  lemma APlusBClosesLoop(d: Edges, n: nat)
    requires ActsAsAPlusB(d, n)
    ensures Closure(d, {StateName(n + 3)}) == APlusBLoop(n)
  {
    var s2, s3, s4, s5 := StateName(n + 2), StateName(n + 3), StateName(n + 4), StateName(n + 5);
    SixDistinct(n);
    assert {s3} + Image(d, {s3}, Eps) == APlusBLoop(n) by {
      ImageOf1(d, s3, Eps);
      assert Succ(d, s3, Eps) == APlusBSucc(n, s3, Eps);
    }
    assert Image(d, APlusBLoop(n), Eps) <= APlusBLoop(n) by {
      APlusBLoopEps(d, n);
      ImageOf4(d, s3, s2, s4, s5, Eps);
    }
    ClosureUnfold(d, {s3});
    ClosureOfClosed(d, APlusBLoop(n));
  }

  /** From the start, only `a` moves on. */
  lemma APlusBReadsA(nfa: Nfa, n: nat, c: Symbol)
    requires ActsAsAPlusB(nfa.delta, n) && c != Eps
    ensures Step(nfa, {StateName(n)}, c) == if c == "a" then APlusBHalf(n) else {}
  {
    var d := nfa.delta;
    assert Image(d, {StateName(n)}, c) == if c == "a" then {StateName(n + 1)} else {} by {
      StateNameInjective(n, n + 2);
      ImageOf1(d, StateName(n), c);
      APlusBReads(d, n, StateName(n), c);
    }
    if c == "a" {
      APlusBClosesHalf(d, n);
    } else {
      StepOfEmpty(nfa, c);
    }
  }

  /** Halfway or in the loop, only `S(n+2)` reads a symbol, and only `b`. */
  lemma APlusBImageB(d: Edges, n: nat, X: set<State>, c: Symbol)
    requires ActsAsAPlusB(d, n) && c != Eps
    requires X == APlusBHalf(n) || X == APlusBLoop(n)
    ensures Image(d, X, c) == if c == "b" then {StateName(n + 3)} else {}
  {
    var s1, s2, s3, s4, s5 := StateName(n + 1), StateName(n + 2), StateName(n + 3), StateName(n + 4), StateName(n + 5);
    SixDistinct(n);
    APlusBReads(d, n, s2, c);
    if X == APlusBHalf(n) {
      APlusBReads(d, n, s1, c);
      ImageOf2(d, s1, s2, c);
    } else {
      APlusBReads(d, n, s3, c);
      APlusBReads(d, n, s4, c);
      APlusBReads(d, n, s5, c);
      ImageOf4(d, s3, s2, s4, s5, c);
    }
  }

  /** Halfway or in the loop, only `b` moves on, into the loop. */
  lemma APlusBReadsB(nfa: Nfa, n: nat, X: set<State>, c: Symbol)
    requires ActsAsAPlusB(nfa.delta, n) && c != Eps
    requires X == APlusBHalf(n) || X == APlusBLoop(n)
    ensures Step(nfa, X, c) == if c == "b" then APlusBLoop(n) else {}
  {
    APlusBImageB(nfa.delta, n, X, c);
    if c == "b" {
      APlusBClosesLoop(nfa.delta, n);
    } else {
      StepOfEmpty(nfa, c);
    }
  }

  /** The words of `ab+`: `a` followed by one or more `b`. */
  predicate AThenBs(w: seq<Symbol>)
  {
    |w| >= 2 && w[0] == "a" && forall i :: 1 <= i < |w| ==> w[i] == "b"
  }

  /** How one more symbol extends a word of `ab+`. */
  lemma AThenBsStep(v: seq<Symbol>, c: Symbol)
    ensures (|v + [c]| == 1 && (v + [c])[0] == "a") <==> |v| == 0 && c == "a"
    ensures AThenBs(v + [c]) <==> ((|v| == 1 && v[0] == "a") || AThenBs(v)) && c == "b"
  {
    var w := v + [c];
    assert forall i :: 0 <= i < |v| ==> w[i] == v[i];
    assert w[|v|] == c;
  }

  /** The set the simulation of `ab+` holds after `w`: the start, halfway, the loop, or nothing. */
  function APlusBAfter(n: nat, w: seq<Symbol>): set<State>
  {
    if |w| == 0 then {StateName(n)}
    else if |w| == 1 && w[0] == "a" then APlusBHalf(n)
    else if AThenBs(w) then APlusBLoop(n)
    else {}
  }

  /** One simulation step of `ab+` follows the classes of the word. */
  lemma APlusBAfterStep(nfa: Nfa, n: nat, v: seq<Symbol>, c: Symbol)
    requires ActsAsAPlusB(nfa.delta, n) && c != Eps
    ensures Step(nfa, APlusBAfter(n, v), c) == APlusBAfter(n, v + [c])
  {
    AThenBsStep(v, c);
    if |v| == 0 {
      APlusBReadsA(nfa, n, c);
    } else if |v| == 1 && v[0] == "a" {
      APlusBReadsB(nfa, n, APlusBHalf(n), c);
    } else if AThenBs(v) {
      APlusBReadsB(nfa, n, APlusBLoop(n), c);
    } else {
      StepOfEmpty(nfa, c);
    }
  }

  /** A simulation with the table of `ab+`, started at `S(n)`, holds after `w` the set `APlusBAfter` names. */
  lemma {:induction false} APlusBRun(nfa: Nfa, n: nat, w: seq<Symbol>)
    requires ActsAsAPlusB(nfa.delta, n) && nfa.start == StateName(n)
    requires NoEps(w)
    ensures Run(nfa, w) == APlusBAfter(n, w)
    decreases |w|
  {
    if |w| == 0 {
      APlusBRunEmpty(nfa, n);
    } else {
      var v, c := w[..|w| - 1], w[|w| - 1];
      assert w == v + [c];
      APlusBRun(nfa, n, v);
      RunStep(nfa, v, c);
      APlusBAfterStep(nfa, n, v, c);
    }
  }

  /** The end `S(n+5)` is held exactly after the words of `ab+`. */
  lemma APlusBEndAfter(n: nat, w: seq<Symbol>)
    ensures StateName(n + 5) in APlusBAfter(n, w) <==> AThenBs(w)
  {
    StateNameInjective(n + 5, n);
    StateNameInjective(n + 5, n + 1);
    StateNameInjective(n + 5, n + 2);
  }

  /** `ab+` accepts exactly the words of `ab+`. */
  lemma APlusBLanguage(n: nat, w: seq<Symbol>)
    requires NoEps(w)
    ensures Accepts(AsNfa(APlusB(n)), w) <==> AThenBs(w)
  {
    var nfa := AsNfa(APlusB(n));
    assert nfa.accept == {StateName(n + 5)} && nfa.start == StateName(n);
    AcceptsAtOne(nfa, w, StateName(n + 5));
    APlusBActs(n);
    APlusBRun(nfa, n, w);
    APlusBEndAfter(n, w);
  }

  /** The `+` token on a non-empty stack succeeds and takes two fresh names. */
  lemma PlusTokenSucceeds(b: Build)
    requires |b.stack| >= 1
    ensures ReduceToken(b, '+').Success? && ReduceToken(b, '+').value.next == b.next + 2
  {
  }

  /** The `+` token replaces the top fragment by its `+` on the next two names. */
  lemma PlusTokenStack(b: Build)
    requires |b.stack| >= 1
    ensures ReduceToken(b, '+').Success?
    ensures ReduceToken(b, '+').value.stack ==
      b.stack[..|b.stack| - 1] + [PlusFrag(b.stack[|b.stack| - 1], b.next)]
  {
  }

  /** Replacing the top of a two-fragment stack keeps the bottom one. */
  lemma TopOfTwoReplaced(f0: Frag, f1: Frag, g: Frag)
    ensures [f0, f1][..1] + [g] == [f0, g]
  {
  }

  /** A successful build is determined by its stack and its counter. */
  lemma SuccessOfParts(r: Result<Build, CompileError>, st: seq<Frag>, n: nat)
    requires r.Success? && r.value.stack == st && r.value.next == n
    ensures r == Success(Build(st, n))
  {
  }

  /** The `+` token on two fragments, field by field. */
  lemma PlusTokenOnTwoParts(f0: Frag, f1: Frag, k: nat)
    ensures ReduceToken(Build([f0, f1], k), '+').Success?
    ensures ReduceToken(Build([f0, f1], k), '+').value.stack == [f0, PlusFrag(f1, k)]
    ensures ReduceToken(Build([f0, f1], k), '+').value.next == k + 2
  {
    var b := Build([f0, f1], k);
    PlusTokenSucceeds(b);
    PlusTokenStack(b);
    TopOfTwoReplaced(f0, f1, PlusFrag(f1, k));
  }

  /** The `+` token replaces the top of two fragments by its `+` on two fresh states. */
  lemma PlusTokenOnTwo(f0: Frag, f1: Frag, k: nat)
    ensures ReduceToken(Build([f0, f1], k), '+') == Success(Build([f0, PlusFrag(f1, k)], k + 2))
  {
    PlusTokenOnTwoParts(f0, f1, k);
    SuccessOfParts(ReduceToken(Build([f0, f1], k), '+'), [f0, PlusFrag(f1, k)], k + 2);
  }

  /** The `.` token joins the only two fragments. */
  lemma ConcatTokenOnTwo(f0: Frag, f1: Frag, k: nat)
    ensures ReduceToken(Build([f0, f1], k), '.') == Success(Build([ConcatFrag(f0, f1)], k))
  {
    assert [f0, f1][..0] + [ConcatFrag(f0, f1)] == [ConcatFrag(f0, f1)];
  }

  /** A `+` after a reduction that left two fragments replaces the top one by its `+`. */
  lemma ReduceAllThenPlus(pf: seq<char>, x: Frag, y: Frag, k: nat)
    requires ReduceAll(pf) == Success(Build([x, y], k))
    ensures ReduceAll(pf + ['+']) == Success(Build([x, PlusFrag(y, k)], k + 2))
  {
    ReduceAllSnoc(pf, '+');
    PlusTokenOnTwo(x, y, k);
  }

  /** A `.` after a reduction that left two fragments joins them. */
  lemma ReduceAllThenConcat(pf: seq<char>, x: Frag, y: Frag, k: nat)
    requires ReduceAll(pf) == Success(Build([x, y], k))
    ensures ReduceAll(pf + ['.']) == Success(Build([ConcatFrag(x, y)], k))
  {
    ReduceAllSnoc(pf, '.');
    ConcatTokenOnTwo(x, y, k);
  }

  /** Reducing `ab+` replaces the `b` literal by `b+`. */
  lemma ReduceOfPlus()
    ensures ReduceAll("ab+") == Success(Build([LiteralFrag('a', 0), PlusOfB(0)], 6))
  {
    assert "ab" + ['+'] == "ab+";
    ReduceOfAB();
    ReduceAllThenPlus("ab", LiteralFrag('a', 0), LiteralFrag('b', 2), 4);
  }

  /** Reducing `ab+.` joins `a` to `b+`. */
  lemma ReduceOfAPlusB()
    ensures ReduceAll("ab+.") == Success(Build([APlusB(0)], 6))
  {
    assert "ab+" + ['.'] == "ab+.";
    ReduceOfPlus();
    ReduceAllThenConcat("ab+", LiteralFrag('a', 0), PlusOfB(0), 6);
  }

  /** `regex_to_nfa("ab+")` builds the automaton of `APlusB(0)`. */
  lemma PlusBuilt()
    ensures RegexToNfa("ab+") == Success(AsNfa(APlusB(0)))
  {
    PostfixOfPlus();
    ReduceOfAPlusB();
  }

  /** The automaton `regex_to_nfa("ab+")` accepts exactly `a` followed by one or more `b`. */
  lemma PlusRegexLanguage(w: seq<Symbol>)
    requires NoEps(w)
    ensures RegexToNfa("ab+").Success?
    ensures Accepts(RegexToNfa("ab+").value, w) <==> AThenBs(w)
  {
    PlusBuilt();
    APlusBLanguage(0, w);
  }

  /** `ab+` accepts `ab` and `abb`, and rejects `a` and `b`. */
  lemma PlusExamples()
    ensures RegexToNfa("ab+").Success?
    ensures var nfa := RegexToNfa("ab+").value;
      && Accepts(nfa, ["a", "b"]) && Accepts(nfa, ["a", "b", "b"])
      && !Accepts(nfa, ["a"]) && !Accepts(nfa, ["b"])
  {
    SymbolsDistinct();
    assert AThenBs(["a", "b"]) && AThenBs(["a", "b", "b"]);
    assert !AThenBs(["a"]) && !AThenBs(["b"]);
    PlusRegexLanguage(["a", "b"]);
    PlusRegexLanguage(["a", "b", "b"]);
    PlusRegexLanguage(["a"]);
    PlusRegexLanguage(["b"]);
  }

  // ---------------------------------------------------------------------
  // A single literal, and the leftover `(`

  /** A literal's start has no epsilon edge, so it is its own closure. */
  lemma LiteralRunEmpty(tok: char, n: nat)
    ensures Run(AsNfa(LiteralFrag(tok, n)), []) == {StateName(n)}
  {
    var d := LiteralFrag(tok, n).delta;
    assert Image(d, {StateName(n)}, Eps) == {} by {
      ImageOf1(d, StateName(n), Eps);
      LiteralSucc(tok, n, StateName(n), Eps);
    }
    ClosureOfClosed(d, {StateName(n)});
  }

  /** After one symbol: the literal's end if the symbol is the token, else nothing. */
  lemma LiteralRunOne(tok: char, n: nat, c: Symbol)
    ensures Run(AsNfa(LiteralFrag(tok, n)), [c]) == if c == [tok] then {StateName(n + 1)} else {}
  {
    var nfa := AsNfa(LiteralFrag(tok, n));
    var d := nfa.delta;
    LiteralRunEmpty(tok, n);
    RunStep(nfa, [], c);
    assert [] + [c] == [c];
    assert Image(d, {StateName(n)}, c) == if c == [tok] then {StateName(n + 1)} else {} by {
      ImageOf1(d, StateName(n), c);
      LiteralSucc(tok, n, StateName(n), c);
    }
    if c == [tok] {
      assert Image(d, {StateName(n + 1)}, Eps) == {} by {
        ImageOf1(d, StateName(n + 1), Eps);
        LiteralSucc(tok, n, StateName(n + 1), Eps);
      }
      ClosureOfClosed(d, {StateName(n + 1)});
    } else {
      StepOfEmpty(nfa, c);
    }
  }

  /** The literal's end reads nothing, so two symbols lead nowhere. */
  lemma LiteralRunTwo(tok: char, n: nat, c1: Symbol, c2: Symbol)
    ensures Run(AsNfa(LiteralFrag(tok, n)), [c1, c2]) == {}
  {
    var nfa := AsNfa(LiteralFrag(tok, n));
    var d := nfa.delta;
    LiteralRunOne(tok, n, c1);
    RunStep(nfa, [c1], c2);
    assert [c1] + [c2] == [c1, c2];
    assert Image(d, Run(nfa, [c1]), c2) == {} by {
      StateNameInjective(n, n + 1);
      if c1 == [tok] {
        ImageOf1(d, StateName(n + 1), c2);
        LiteralSucc(tok, n, StateName(n + 1), c2);
      } else {
        ImageOfEmpty(d, c2);
      }
    }
    ImageOfEmpty(d, Eps);
    ClosureOfClosed(d, {});
  }

  /** A literal accepts exactly the one-symbol word of its token. */
  lemma LiteralLanguage(tok: char, n: nat, w: seq<Symbol>)
    ensures Accepts(AsNfa(LiteralFrag(tok, n)), w) <==> w == [[tok]]
  {
    var nfa := AsNfa(LiteralFrag(tok, n));
    AcceptsAtOne(nfa, w, StateName(n + 1));
    StateNameInjective(n, n + 1);
    if |w| == 0 {
      LiteralRunEmpty(tok, n);
    } else if |w| == 1 {
      assert w == [w[0]];
      LiteralRunOne(tok, n, w[0]);
    } else {
      assert w[..2] == [w[0], w[1]];
      LiteralRunTwo(tok, n, w[0], w[1]);
      RunEmptyStaysEmpty(nfa, w[..2], w[2..]);
      assert w[..2] + w[2..] == w;
    }
  }

  /** Reducing the postfix `(` pushes it as a literal on states 0 and 1. */
  lemma ReduceOfOpen()
    ensures ReduceAll("(") == Success(Build([LiteralFrag('(', 0)], 2))
  {
    ReduceAllSnoc([], '(');
    assert [] + ['('] == "(";
    assert [] + [LiteralFrag('(', 0)] == [LiteralFrag('(', 0)];
  }

  /** `regex_to_nfa("(")`: the unclosed `(` is flushed to the postfix and compiled as a literal. */
  lemma OpenBuilt()
    ensures RegexToNfa("(") == Success(AsNfa(LiteralFrag('(', 0)))
  {
    OpenIsFlushed();
    ReduceOfOpen();
  }

  /** The automaton `regex_to_nfa("(")` accepts exactly the word `(`. */
  lemma OpenRegexLanguage(w: seq<Symbol>)
    ensures RegexToNfa("(").Success?
    ensures Accepts(RegexToNfa("(").value, w) <==> w == ["("]
  {
    OpenBuilt();
    LiteralLanguage('(', 0, w);
  }
}
