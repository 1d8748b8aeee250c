/**
 * The words the automata built by `regex_to_nfa` of nfa.py accept, for the
 * forms its docstring names, decided by the subset simulation of `NFA.test`.
 */
module RegexLanguages {

  import opened Wrappers
  import opened AutomataTypes
  import opened FreshNames
  import opened NfaSim
  import opened Postfix
  import opened Fragments
  import opened Thompson
  import opened RegexExamples

  /** The automaton `regex_to_nfa` returns for a fragment: its alphabet loses the epsilon label. */
  function AsNfa(f: Frag): Nfa
  {
    Nfa(f.states, (set a | a in f.alphabet && a != Eps), f.delta, f.start, f.accept)
  }

  // ---------------------------------------------------------------------
  // Evaluating the simulation on a known transition table

  /** The successors of a set, one state at a time. */
  lemma ImageOfEmpty(delta: Edges, a: Symbol)
    ensures Image(delta, {}, a) == {}
  {
  }

  /** One expansion step of the closure leaves it unchanged. */
  lemma ClosureUnfold(delta: Edges, S: set<State>)
    ensures Closure(delta, S) == Closure(delta, S + Image(delta, S, Eps))
  {
    var S' := S + Image(delta, S, Eps);
    if S' <= S {
      assert S' == S;
    }
  }

  /** A set without epsilon successors outside itself is its own closure. */
  lemma ClosureOfClosed(delta: Edges, S: set<State>)
    requires Image(delta, S, Eps) <= S
    ensures Closure(delta, S) == S
  {
  }

  /** The set after one more symbol. */
  lemma RunSnoc(nfa: Nfa, w: seq<Symbol>, a: Symbol)
    ensures Run(nfa, w + [a]) == Closure(nfa.delta, Image(nfa.delta, Run(nfa, w), a))
  {
    assert (w + [a])[..|w|] == w;
  }

  lemma ImageOf1(delta: Edges, x: State, a: Symbol)
    ensures Image(delta, {x}, a) == Succ(delta, x, a)
  {
  }

  lemma ImageOf2(delta: Edges, x: State, y: State, a: Symbol)
    ensures Image(delta, {x, y}, a) == Succ(delta, x, a) + Succ(delta, y, a)
  {
  }

  /** The successors of a set of up to three states. */
  lemma ImageOf3(delta: Edges, x: State, y: State, z: State, a: Symbol)
    ensures Image(delta, {x, y, z}, a) == Succ(delta, x, a) + Succ(delta, y, a) + Succ(delta, z, a)
  {
  }

  // ---------------------------------------------------------------------
  // `a|b`

  /** The fragment for `a|b` when the counter starts at `n`. */
  function AltAB(n: nat): Frag
  {
    AltFrag(LiteralFrag('a', n), LiteralFrag('b', n + 2), n + 4)
  }

  /** A literal's only edge reads its token. */
  lemma LiteralSucc(tok: char, n: nat, q: State, b: Symbol)
    ensures Succ(LiteralFrag(tok, n).delta, q, b) == if q == StateName(n) && b == [tok] then {StateName(n + 1)} else {}
  {
  }

  /** The fresh start of `|` has no edges but its two epsilon branches. */
  lemma AltStartOnlyBranches(f1: Frag, f2: Frag, n: nat, b: Symbol)
    requires FragWellFormed(f1) && FragWellFormed(f2)
    requires f1.states + f2.states <= NamesBelow(n)
    requires b != Eps
    ensures Succ(AltFrag(f1, f2, n).delta, StateName(n), b) == {}
  {
    var s := StateName(n);
    NextNameIsFresh(n);
    var d0 := Merge(f1.delta, f2.delta)[(s, Eps) := {f1.start, f2.start}];
    assert Succ(d0, s, b) == Succ(Merge(f1.delta, f2.delta), s, b);
    assert Succ(f1.delta, s, b) == {} && Succ(f2.delta, s, b) == {};
  }

  /**
   * The transition table of `a|b`: `S4` branches to both literals by
   * epsilon, each literal reads its symbol, and both ends lead to `S5`.
   */
  lemma AlternationTable(n: nat, q: State, b: Symbol)
    ensures Succ(AltAB(n).delta, q, b) ==
      if q == StateName(n + 4) && b == Eps then {StateName(n), StateName(n + 2)}
      else if q == StateName(n) && b == "a" then {StateName(n + 1)}
      else if q == StateName(n + 2) && b == "b" then {StateName(n + 3)}
      else if (q == StateName(n + 1) || q == StateName(n + 3)) && b == Eps then {StateName(n + 5)}
      else {}
  {
    StateNameInjective(n + 4, n);
    StateNameInjective(n + 4, n + 1);
    StateNameInjective(n + 4, n + 2);
    StateNameInjective(n + 4, n + 3);
    if q == StateName(n + 4) {
      AlternationStart(n, b);
    } else {
      AlternationInner(n, q, b);
    }
  }

  lemma AlternationStart(n: nat, b: Symbol)
    ensures Succ(AltAB(n).delta, StateName(n + 4), b) == if b == Eps then {StateName(n), StateName(n + 2)} else {}
  {
    var la, lb := LiteralFrag('a', n), LiteralFrag('b', n + 2);
    LiteralWellFormed('a', n);
    LiteralWellFormed('b', n + 2);
    NamesBelowMembers(n + 4, n);
    NamesBelowMembers(n + 4, n + 1);
    NamesBelowMembers(n + 4, n + 2);
    NamesBelowMembers(n + 4, n + 3);
    if b == Eps {
      AltStartEdges(la, lb, n + 4);
    } else {
      AltStartOnlyBranches(la, lb, n + 4, b);
    }
  }

  lemma AlternationInner(n: nat, q: State, b: Symbol)
    requires q != StateName(n + 4)
    ensures Succ(AltAB(n).delta, q, b) ==
      if q == StateName(n) && b == "a" then {StateName(n + 1)}
      else if q == StateName(n + 2) && b == "b" then {StateName(n + 3)}
      else if (q == StateName(n + 1) || q == StateName(n + 3)) && b == Eps then {StateName(n + 5)}
      else {}
  {
    var la, lb := LiteralFrag('a', n), LiteralFrag('b', n + 2);
    AltEdgesAt(la, lb, n + 4, q, b);
    LiteralSucc('a', n, q, b);
    LiteralSucc('b', n + 2, q, b);
    StateNameInjective(n, n + 2);
    StateNameInjective(n, n + 1);
    StateNameInjective(n, n + 3);
    StateNameInjective(n + 2, n + 1);
    StateNameInjective(n + 2, n + 3);
  }

  /** The names `S(n)` to `S(n+5)` are pairwise distinct. */
  lemma SixDistinct(n: nat)
    ensures var S0, S1, S2, S3, S4, S5 := StateName(n), StateName(n + 1), StateName(n + 2), StateName(n + 3), StateName(n + 4), StateName(n + 5);
      && S0 != S1 && S0 != S2 && S0 != S3 && S0 != S4 && S0 != S5
      && S1 != S2 && S1 != S3 && S1 != S4 && S1 != S5
      && S2 != S3 && S2 != S4 && S2 != S5
      && S3 != S4 && S3 != S5
      && S4 != S5
  {
    StateNameInjective(n, n + 1);
    StateNameInjective(n, n + 2);
    StateNameInjective(n, n + 3);
    StateNameInjective(n, n + 4);
    StateNameInjective(n, n + 5);
    StateNameInjective(n + 1, n + 2);
    StateNameInjective(n + 1, n + 3);
    StateNameInjective(n + 1, n + 4);
    StateNameInjective(n + 1, n + 5);
    StateNameInjective(n + 2, n + 3);
    StateNameInjective(n + 2, n + 4);
    StateNameInjective(n + 2, n + 5);
    StateNameInjective(n + 3, n + 4);
    StateNameInjective(n + 3, n + 5);
    StateNameInjective(n + 4, n + 5);
  }

  /** Before any symbol: the start and both literal starts. */
  lemma AlternationRunEmpty(n: nat)
    ensures Run(AsNfa(AltAB(n)), []) == {StateName(n + 4), StateName(n), StateName(n + 2)}
  {
    var d, s0, s2, s4 := AltAB(n).delta, StateName(n), StateName(n + 2), StateName(n + 4);
    var T := {s4, s0, s2};
    SixDistinct(n);
    assert Image(d, {s4}, Eps) == {s0, s2} by {
      ImageOf1(d, s4, Eps);
      AlternationTable(n, s4, Eps);
    }
    assert {s4} + {s0, s2} == T;
    assert Image(d, T, Eps) <= T by {
      ImageOf3(d, s4, s0, s2, Eps);
      AlternationTable(n, s4, Eps);
      AlternationTable(n, s0, Eps);
      AlternationTable(n, s2, Eps);
    }
    ClosureUnfold(d, {s4});
    ClosureOfClosed(d, T);
  }

  /** `S0` reads only `a`. */
  lemma AlternationReadsA(n: nat, c: Symbol)
    requires c != Eps
    ensures Succ(AltAB(n).delta, StateName(n), c) == if c == "a" then {StateName(n + 1)} else {}
  {
    SixDistinct(n);
    AlternationInner(n, StateName(n), c);
  }

  /** `S2` reads only `b`. */
  lemma AlternationReadsB(n: nat, c: Symbol)
    requires c != Eps
    ensures Succ(AltAB(n).delta, StateName(n + 2), c) == if c == "b" then {StateName(n + 3)} else {}
  {
    SixDistinct(n);
    AlternationInner(n, StateName(n + 2), c);
  }

  /** The successors of three states whose own successors are known. */
  lemma ImageOfThree(delta: Edges, x: State, y: State, z: State, c: Symbol, Y: set<State>, Z: set<State>)
    requires Succ(delta, x, c) == {} && Succ(delta, y, c) == Y && Succ(delta, z, c) == Z
    ensures Image(delta, {x, y, z}, c) == Y + Z
  {
    ImageOf3(delta, x, y, z, c);
  }

  /** Reading a symbol from the start set leaves the end of the literal for it, if any. */
  lemma AlternationReads(n: nat, c: Symbol)
    requires c != Eps
    ensures Image(AltAB(n).delta, {StateName(n + 4), StateName(n), StateName(n + 2)}, c) ==
      if c == "a" then {StateName(n + 1)} else if c == "b" then {StateName(n + 3)} else {}
  {
    var A, B := if c == "a" then {StateName(n + 1)} else {}, if c == "b" then {StateName(n + 3)} else {};
    AlternationStart(n, c);
    AlternationReadsA(n, c);
    AlternationReadsB(n, c);
    ImageOfThree(AltAB(n).delta, StateName(n + 4), StateName(n), StateName(n + 2), c, A, B);
    assert "a" != "b" by {
      assert "a"[0] != "b"[0];
    }
  }

  /** The end of either literal and `S5` have no epsilon successor outside them. */
  lemma AlternationEndClosed(n: nat, mid: State)
    requires mid == StateName(n + 1) || mid == StateName(n + 3)
    ensures Image(AltAB(n).delta, {mid, StateName(n + 5)}, Eps) <= {mid, StateName(n + 5)}
  {
    var d, s5 := AltAB(n).delta, StateName(n + 5);
    SixDistinct(n);
    ImageOf2(d, mid, s5, Eps);
    AlternationTable(n, mid, Eps);
    AlternationTable(n, s5, Eps);
  }

  /** The end of either literal closes to itself and `S5`. */
  lemma AlternationCloses(n: nat, mid: State)
    requires mid == StateName(n + 1) || mid == StateName(n + 3)
    ensures Closure(AltAB(n).delta, {mid}) == {mid, StateName(n + 5)}
  {
    var d, s5 := AltAB(n).delta, StateName(n + 5);
    assert {mid} + Image(d, {mid}, Eps) == {mid, s5} by {
      SixDistinct(n);
      ImageOf1(d, mid, Eps);
      AlternationTable(n, mid, Eps);
    }
    AlternationEndClosed(n, mid);
    ClosureUnfold(d, {mid});
    ClosureOfClosed(d, {mid, s5});
  }

  /** After one symbol, `S5` is reached through the literal that reads it, if any. */
  lemma AlternationRunOne(n: nat, c: Symbol)
    requires c != Eps
    ensures Run(AsNfa(AltAB(n)), [c]) ==
      if c == "a" then {StateName(n + 1), StateName(n + 5)}
      else if c == "b" then {StateName(n + 3), StateName(n + 5)}
      else {}
  {
    AlternationRunEmpty(n);
    RunSnoc(AsNfa(AltAB(n)), [], c);
    assert [] + [c] == [c];
    AlternationReads(n, c);
    if c == "a" {
      AlternationCloses(n, StateName(n + 1));
    } else if c == "b" {
      AlternationCloses(n, StateName(n + 3));
    } else {
      ImageOfEmpty(AltAB(n).delta, Eps);
      ClosureOfClosed(AltAB(n).delta, {});
    }
  }

  /** A second symbol leads nowhere. */
  lemma AlternationRunTwo(n: nat, c1: Symbol, c2: Symbol)
    requires c1 != Eps && c2 != Eps
    ensures Run(AsNfa(AltAB(n)), [c1, c2]) == {}
  {
    var d := AltAB(n).delta;
    AlternationRunOne(n, c1);
    RunSnoc(AsNfa(AltAB(n)), [c1], c2);
    assert [c1] + [c2] == [c1, c2];
    assert Image(d, Run(AsNfa(AltAB(n)), [c1]), c2) == {} by {
      SixDistinct(n);
      var mid := if c1 == "a" then StateName(n + 1) else StateName(n + 3);
      if c1 == "a" || c1 == "b" {
        ImageOf2(d, mid, StateName(n + 5), c2);
        AlternationTable(n, mid, c2);
        AlternationTable(n, StateName(n + 5), c2);
      } else {
        ImageOfEmpty(d, c2);
      }
    }
    ImageOfEmpty(d, Eps);
    ClosureOfClosed(d, {});
  }

  /** `S4` starts and `S5` accepts. */
  lemma AlternationEnds(n: nat)
    ensures AsNfa(AltAB(n)).start == StateName(n + 4)
    ensures AsNfa(AltAB(n)).accept == {StateName(n + 5)}
  {
  }

  lemma AlternationRejectsEmpty(n: nat)
    ensures !Accepts(AsNfa(AltAB(n)), [])
  {
    SixDistinct(n);
    AlternationEnds(n);
    AlternationRunEmpty(n);
  }

  /** With a single accepting state, a word is accepted when its run reaches that state. */
  lemma AcceptsAtOne(nfa: Nfa, w: seq<Symbol>, t: State)
    requires nfa.accept == {t}
    ensures Accepts(nfa, w) <==> t in Run(nfa, w)
  {
  }

  lemma AlternationOneSymbol(n: nat, c: Symbol)
    requires c != Eps
    ensures Accepts(AsNfa(AltAB(n)), [c]) <==> c == "a" || c == "b"
  {
    AlternationEnds(n);
    AcceptsAtOne(AsNfa(AltAB(n)), [c], StateName(n + 5));
    AlternationRunOne(n, c);
  }

  lemma AlternationRejectsLong(n: nat, w: seq<Symbol>)
    requires NoEps(w) && |w| >= 2
    ensures !Accepts(AsNfa(AltAB(n)), w)
  {
    assert w[..2] == [w[0], w[1]];
    AlternationRunTwo(n, w[0], w[1]);
    RunEmptyStaysEmpty(AsNfa(AltAB(n)), w[..2], w[2..]);
    assert w[..2] + w[2..] == w;
  }

  /** `a|b` accepts exactly the words `a` and `b`. */
  lemma AlternationLanguage(n: nat, w: seq<Symbol>)
    requires NoEps(w)
    ensures Accepts(AsNfa(AltAB(n)), w) <==> w == ["a"] || w == ["b"]
  {
    if |w| == 0 {
      AlternationRejectsEmpty(n);
    } else if |w| == 1 {
      assert w == [w[0]];
      AlternationOneSymbol(n, w[0]);
    } else {
      AlternationRejectsLong(n, w);
    }
  }

  // ---------------------------------------------------------------------
  // From the regular expression to the automaton

  /** Reducing `a` pushes the literal fragment on states 0 and 1. */
  lemma ReduceOfA()
    ensures ReduceAll("a") == Success(Build([LiteralFrag('a', 0)], 2))
  {
    ReduceAllSnoc([], 'a');
    assert [] + ['a'] == "a";
    assert ReduceAll([]) == Success(Build([], 0));
    var g := LiteralFrag('a', 0);
    assert ReduceToken(Build([], 0), 'a') == Success(Build([g], 2)) by {
      assert [] + [g] == [g];
    }
  }

  /** Reducing `ab` pushes the literal fragment on states 2 and 3 above it. */
  lemma ReduceOfAB()
    ensures ReduceAll("ab") == Success(Build([LiteralFrag('a', 0), LiteralFrag('b', 2)], 4))
  {
    ReduceOfA();
    ReduceAllSnoc("a", 'b');
    assert "a" + ['b'] == "ab";
    var ga, gb := LiteralFrag('a', 0), LiteralFrag('b', 2);
    assert ReduceToken(Build([ga], 2), 'b') == Success(Build([ga, gb], 4)) by {
      assert [ga] + [gb] == [ga, gb];
    }
  }

  /** Reducing `ab|` joins the two literals with fresh states 4 and 5. */
  lemma ReduceOfAlternation()
    ensures ReduceAll("ab|") == Success(Build([AltAB(0)], 6))
  {
    ReduceOfAB();
    ReduceAllSnoc("ab", '|');
    assert "ab" + ['|'] == "ab|";
    var ga, gb := LiteralFrag('a', 0), LiteralFrag('b', 2);
    assert ReduceToken(Build([ga, gb], 4), '|') == Success(Build([AltAB(0)], 6)) by {
      var st := [ga, gb];
      assert st[..0] + [AltFrag(st[0], st[1], 4)] == [AltAB(0)];
    }
  }

  /** `regex_to_nfa("a|b")` builds the automaton of `AltAB(0)`. */
  lemma AlternationBuilt()
    ensures RegexToNfa("a|b") == Success(AsNfa(AltAB(0)))
  {
    PostfixOfAlternation();
    ReduceOfAlternation();
  }

  /** The automaton `regex_to_nfa("a|b")` accepts exactly the words `a` and `b`. */
  lemma AlternationRegexLanguage(w: seq<Symbol>)
    requires NoEps(w)
    ensures RegexToNfa("a|b").Success?
    ensures Accepts(RegexToNfa("a|b").value, w) <==> w == ["a"] || w == ["b"]
  {
    AlternationBuilt();
    AlternationLanguage(0, w);
  }

  /** `a(b)`: no concatenation is inserted before `(`, so the `a` fragment is left below and dropped. */
  lemma GroupDropsLiteral()
    ensures RegexToNfa("a(b)") == Success(AsNfa(LiteralFrag('b', 2)))
  {
    NoConcatBeforeGroup();
    ReduceOfAB();
  }

  /** `a.b`: the explicit `.` becomes an extra concatenation with one fragment too few. */
  lemma ExplicitDotFails()
    ensures RegexToNfa("a.b") == Failure(MissingOperand('.'))
  {
    DotIsConcat();
    ReduceOfA();
    ReduceAllSnoc("a", '.');
    assert "a" + ['.'] == "a.";
    assert ReduceAll("a.") == Failure(MissingOperand('.'));
    ReduceAllSnoc("a.", 'b');
    assert "a." + ['b'] == "a.b";
    ReduceAllSnoc("a.b", '.');
    assert "a.b" + ['.'] == "a.b.";
  }
}
