/**
 * `postfix_to_nfa` and `regex_to_nfa` of nfa.py: Thompson construction over
 * a stack of fragments, with fresh names from a counter local to one call.
 */
module Thompson {

  import opened Wrappers
  import opened AutomataTypes
  import opened FreshNames
  import opened NfaSim
  import opened Postfix
  import opened Fragments

  /** The fragment stack and the counter of `new_state` (the next number it hands out). */
  datatype Build = Build(stack: seq<Frag>, next: nat)

  /** One iteration of the `for token in postfix` loop. */
  function ReduceToken(b: Build, tok: char): Result<Build, CompileError>
  {
    var st := b.stack;
    if tok == '*' || tok == '+' then
      if |st| < 1 then Failure(MissingOperand(tok))
      else
        var f := st[|st| - 1];
        var g := if tok == '*' then StarFrag(f, b.next) else PlusFrag(f, b.next);
        Success(Build(st[..|st| - 1] + [g], b.next + 2))
    else if tok == '.' then
      if |st| < 2 then Failure(MissingOperand(tok))
      else Success(Build(st[..|st| - 2] + [ConcatFrag(st[|st| - 2], st[|st| - 1])], b.next))
    else if tok == '|' then
      if |st| < 2 then Failure(MissingOperand(tok))
      else Success(Build(st[..|st| - 2] + [AltFrag(st[|st| - 2], st[|st| - 1], b.next)], b.next + 2))
    else
      Success(Build(st + [LiteralFrag(tok, b.next)], b.next + 2))
  }

  /** The stack and counter after the tokens of `pf`; the counter starts at 0 on every call. */
  function ReduceAll(pf: seq<char>): Result<Build, CompileError>
    decreases |pf|
  {
    if |pf| == 0 then Success(Build([], 0))
    else
      var b :- ReduceAll(pf[..|pf| - 1]);
      ReduceToken(b, pf[|pf| - 1])
  }

  /** `postfix_to_nfa`: the top fragment; anything below it is dropped. */
  function PostfixToNfa(pf: seq<char>): Result<Frag, CompileError>
  {
    var b :- ReduceAll(pf);
    if |b.stack| == 0 then Failure(EmptyExpression) else Success(b.stack[|b.stack| - 1])
  }

  /** `regex_to_nfa`. */
  function RegexToNfa(regex: string): Result<Nfa, CompileError>
  {
    var pf :- ToPostfix(regex);
    var f :- PostfixToNfa(pf);
    Success(Nfa(f.states, (set a | a in f.alphabet && a != Eps), f.delta, f.start, f.accept))
  }

  // ---------------------------------------------------------------------
  // The fragment stack

  /** The fragments a postfix token pops: one for `*` and `+`, two for `.` and `|`, none for a literal. */
  function Arity(tok: char): nat
  {
    if tok == '*' || tok == '+' then 1 else if tok == '.' || tok == '|' then 2 else 0
  }

  /** The stack height after the tokens of `pf`, each popping its arity and pushing one fragment. */
  function Height(pf: seq<char>): int
    decreases |pf|
  {
    if |pf| == 0 then 0 else Height(pf[..|pf| - 1]) - Arity(pf[|pf| - 1]) + 1
  }

  /** Some token of `pf` finds fewer fragments on the stack than it pops. */
  ghost predicate Underflows(pf: seq<char>)
  {
    exists i :: 0 <= i < |pf| && Height(pf[..i]) < Arity(pf[i])
  }

  lemma UnderflowsSnoc(pf: seq<char>)
    requires |pf| > 0
    ensures Underflows(pf) <==> Underflows(pf[..|pf| - 1]) || Height(pf[..|pf| - 1]) < Arity(pf[|pf| - 1])
  {
    var p := pf[..|pf| - 1];
    assert forall i :: 0 <= i < |p| ==> pf[..i] == p[..i] && pf[i] == p[i];
    if Underflows(pf) {
      var i :| 0 <= i < |pf| && Height(pf[..i]) < Arity(pf[i]);
      if i < |p| {
        assert Height(p[..i]) < Arity(p[i]);
      } else {
        assert pf[..i] == p;
      }
    }
    if Underflows(p) {
      var i :| 0 <= i < |p| && Height(p[..i]) < Arity(p[i]);
      assert Height(pf[..i]) < Arity(pf[i]);
    }
    if Height(p) < Arity(pf[|pf| - 1]) {
      assert pf[..|p|] == p;
    }
  }

  /**
   * Every fragment on the stack is well-formed and named below the counter,
   * and the fragments on the stack have pairwise disjoint states.
   */
  predicate BuildInv(b: Build)
  {
    && (forall i :: 0 <= i < |b.stack| ==> FragWellFormed(b.stack[i]) && b.stack[i].states <= NamesBelow(b.next))
    && (forall i, j :: 0 <= i < j < |b.stack| ==> b.stack[i].states !! b.stack[j].states)
  }

  /** Dropping fragments from the top and advancing the counter keeps the invariant. */
  lemma BuildInvPrefix(b: Build, k: nat, n': nat)
    requires BuildInv(b) && k <= |b.stack| && b.next <= n'
    ensures BuildInv(Build(b.stack[..k], n'))
  {
    NamesBelowMonotone(b.next, n');
  }

  /** Pushing a well-formed fragment disjoint from those below keeps the invariant. */
  lemma BuildInvPush(rest: seq<Frag>, g: Frag, n: nat)
    requires BuildInv(Build(rest, n))
    requires FragWellFormed(g) && g.states <= NamesBelow(n)
    requires forall i :: 0 <= i < |rest| ==> rest[i].states !! g.states
    ensures BuildInv(Build(rest + [g], n))
  {
  }

  /** Replacing the top fragment by one built from it and fresh names keeps the invariant. */
  lemma ReplaceTop1(b: Build, g: Frag, added: set<State>, n': nat)
    requires BuildInv(b) && 1 <= |b.stack| && b.next <= n'
    requires FragWellFormed(g) && g.states <= NamesBelow(n')
    requires added !! NamesBelow(b.next)
    requires g.states <= b.stack[|b.stack| - 1].states + added
    ensures BuildInv(Build(b.stack[..|b.stack| - 1] + [g], n'))
  {
    var rest := b.stack[..|b.stack| - 1];
    BuildInvPrefix(b, |b.stack| - 1, n');
    forall i | 0 <= i < |rest| ensures rest[i].states !! g.states {
      assert rest[i].states <= NamesBelow(b.next);
      assert rest[i].states !! b.stack[|b.stack| - 1].states;
    }
    BuildInvPush(rest, g, n');
  }

  /** Replacing the top two fragments by one built from them and fresh names keeps the invariant. */
  lemma ReplaceTop2(b: Build, g: Frag, added: set<State>, n': nat)
    requires BuildInv(b) && 2 <= |b.stack| && b.next <= n'
    requires FragWellFormed(g) && g.states <= NamesBelow(n')
    requires added !! NamesBelow(b.next)
    requires g.states <= b.stack[|b.stack| - 2].states + b.stack[|b.stack| - 1].states + added
    ensures BuildInv(Build(b.stack[..|b.stack| - 2] + [g], n'))
  {
    var rest := b.stack[..|b.stack| - 2];
    BuildInvPrefix(b, |b.stack| - 2, n');
    forall i | 0 <= i < |rest| ensures rest[i].states !! g.states {
      assert rest[i].states <= NamesBelow(b.next);
      assert rest[i].states !! b.stack[|b.stack| - 2].states;
      assert rest[i].states !! b.stack[|b.stack| - 1].states;
    }
    BuildInvPush(rest, g, n');
  }

  lemma PushLiteralInv(b: Build, tok: char)
    requires BuildInv(b)
    ensures BuildInv(Build(b.stack + [LiteralFrag(tok, b.next)], b.next + 2))
  {
    var n := b.next;
    LiteralWellFormed(tok, n);
    FreshPair(n);
    PushFresh(b, LiteralFrag(tok, n), {StateName(n), StateName(n + 1)}, n + 2);
  }

  /** Pushing a well-formed fragment made of fresh names keeps the invariant. */
  lemma PushFresh(b: Build, g: Frag, added: set<State>, n': nat)
    requires BuildInv(b) && b.next <= n'
    requires FragWellFormed(g) && g.states <= NamesBelow(n')
    requires added !! NamesBelow(b.next) && g.states <= added
    ensures BuildInv(Build(b.stack + [g], n'))
  {
    NamesBelowMonotone(b.next, n');
    forall i | 0 <= i < |b.stack| ensures b.stack[i].states !! g.states {
      assert b.stack[i].states <= NamesBelow(b.next);
    }
    BuildInvPrefix(b, |b.stack|, n');
    assert b.stack[..|b.stack|] == b.stack;
    BuildInvPush(b.stack, g, n');
  }

  lemma PushStarInv(b: Build)
    requires BuildInv(b) && 1 <= |b.stack|
    ensures BuildInv(Build(b.stack[..|b.stack| - 1] + [StarFrag(b.stack[|b.stack| - 1], b.next)], b.next + 2))
  {
    var f, n := b.stack[|b.stack| - 1], b.next;
    StarWellFormed(f, n);
    FreshPair(n);
    NamesBelowMonotone(n, n + 2);
    ReplaceTop1(b, StarFrag(f, n), {StateName(n), StateName(n + 1)}, n + 2);
  }

  lemma PushPlusInv(b: Build)
    requires BuildInv(b) && 1 <= |b.stack|
    ensures BuildInv(Build(b.stack[..|b.stack| - 1] + [PlusFrag(b.stack[|b.stack| - 1], b.next)], b.next + 2))
  {
    var f, n := b.stack[|b.stack| - 1], b.next;
    PlusWellFormed(f, n);
    FreshPair(n);
    NamesBelowMonotone(n, n + 2);
    ReplaceTop1(b, PlusFrag(f, n), {StateName(n), StateName(n + 1)}, n + 2);
  }

  lemma PushConcatInv(b: Build)
    requires BuildInv(b) && 2 <= |b.stack|
    ensures BuildInv(Build(b.stack[..|b.stack| - 2] + [ConcatFrag(b.stack[|b.stack| - 2], b.stack[|b.stack| - 1])], b.next))
  {
    var st := b.stack;
    ConcatShape(st[|st| - 2], st[|st| - 1]);
    ReplaceTop2(b, ConcatFrag(st[|st| - 2], st[|st| - 1]), {}, b.next);
  }

  lemma PushAltInv(b: Build)
    requires BuildInv(b) && 2 <= |b.stack|
    ensures BuildInv(Build(b.stack[..|b.stack| - 2] + [AltFrag(b.stack[|b.stack| - 2], b.stack[|b.stack| - 1], b.next)], b.next + 2))
  {
    var st, n := b.stack, b.next;
    AltWellFormed(st[|st| - 2], st[|st| - 1], n);
    FreshPair(n);
    NamesBelowMonotone(n, n + 2);
    ReplaceTop2(b, AltFrag(st[|st| - 2], st[|st| - 1], n), {StateName(n), StateName(n + 1)}, n + 2);
  }

  /**
   * One token succeeds exactly when the stack holds as many fragments as it
   * pops, fails naming the token otherwise, and keeps the stack invariant.
   */
  lemma ReduceTokenInv(b: Build, tok: char)
    requires BuildInv(b)
    ensures ReduceToken(b, tok).Success? <==> Arity(tok) <= |b.stack|
    ensures ReduceToken(b, tok).Failure? ==> ReduceToken(b, tok).error == MissingOperand(tok)
    ensures ReduceToken(b, tok).Success? ==>
      var b' := ReduceToken(b, tok).value;
      BuildInv(b') && |b'.stack| == |b.stack| - Arity(tok) + 1 && b'.next <= b.next + 2
  {
    if Arity(tok) <= |b.stack| {
      if tok == '*' {
        PushStarInv(b);
      } else if tok == '+' {
        PushPlusInv(b);
      } else if tok == '.' {
        PushConcatInv(b);
      } else if tok == '|' {
        PushAltInv(b);
      } else {
        PushLiteralInv(b, tok);
      }
    }
  }

  /**
   * The postfix loop succeeds exactly when no token underflows the stack; it
   * then leaves `Height(pf)` fragments, all well-formed, pairwise disjoint and
   * named from `S0` up to fewer than two names per token.
   */
  lemma {:induction false} ReduceAllInv(pf: seq<char>)
    ensures ReduceAll(pf).Success? <==> !Underflows(pf)
    ensures ReduceAll(pf).Failure? ==> ReduceAll(pf).error.MissingOperand?
    ensures ReduceAll(pf).Success? ==>
      var b := ReduceAll(pf).value;
      BuildInv(b) && |b.stack| == Height(pf) && b.next <= 2 * |pf|
    decreases |pf|
  {
    if |pf| == 0 {
      assert !Underflows(pf);
    } else {
      var p := pf[..|pf| - 1];
      ReduceAllInv(p);
      UnderflowsSnoc(pf);
      if ReduceAll(p).Success? {
        ReduceTokenInv(ReduceAll(p).value, pf[|pf| - 1]);
      }
    }
  }

  /**
   * `postfix_to_nfa` succeeds exactly when no token underflows and at least
   * one fragment is left; it fails with `EmptyExpression` when nothing
   * underflows but the stack ends empty, and with a missing operand
   * otherwise. The fragment it returns is well-formed and named below twice
   * the number of tokens.
   */
  lemma PostfixToNfaSpec(pf: seq<char>)
    ensures PostfixToNfa(pf).Success? <==> !Underflows(pf) && Height(pf) > 0
    ensures PostfixToNfa(pf).Failure? ==>
      (PostfixToNfa(pf).error == EmptyExpression <==> !Underflows(pf))
      && (PostfixToNfa(pf).error.MissingOperand? <==> Underflows(pf))
    ensures PostfixToNfa(pf).Success? ==>
      FragWellFormed(PostfixToNfa(pf).value) && PostfixToNfa(pf).value.states <= NamesBelow(2 * |pf|)
  {
    ReduceAllInv(pf);
    if ReduceAll(pf).Success? {
      var b := ReduceAll(pf).value;
      if |b.stack| > 0 {
        assert FragWellFormed(b.stack[|b.stack| - 1]) && b.stack[|b.stack| - 1].states <= NamesBelow(b.next);
        NamesBelowMonotone(b.next, 2 * |pf|);
      }
    }
  }

  /** A well-formed fragment read as an automaton: no alphabet symbol is epsilon, so the filter keeps them all. */
  lemma FragAsNfa(f: Frag)
    requires FragWellFormed(f)
    ensures (set a | a in f.alphabet && a != Eps) == f.alphabet
    ensures WellFormed(Nfa(f.states, f.alphabet, f.delta, f.start, f.accept))
  {
    assert forall a :: a in f.alphabet ==> a != Eps by {
      forall a | a in f.alphabet ensures a != Eps {
        assert |a| == 1;
      }
    }
  }

  /**
   * `regex_to_nfa` fails with `UnmatchedClose` exactly on input some prefix
   * of which closes more parentheses than it opens; otherwise it succeeds
   * exactly when no postfix token underflows and a fragment is left. The
   * automaton it returns is well-formed, has the fragment's alphabet with
   * epsilon excluded, one accept state other than the start, and only
   * states named `S<j>` for `j` below twice the postfix length.
   */
  lemma RegexToNfaSpec(regex: string)
    ensures !PrefixBalanced(regex) <==> RegexToNfa(regex) == Failure(UnmatchedClose)
    ensures PrefixBalanced(regex) <==> ToPostfix(regex).Success?
    ensures ToPostfix(regex).Success? ==>
      var pf := ToPostfix(regex).value;
      RegexToNfa(regex).Success? <==> !Underflows(pf) && Height(pf) > 0
    ensures RegexToNfa(regex).Success? ==> ToPostfix(regex).Success?
    ensures RegexToNfa(regex).Success? && ToPostfix(regex).Success? ==>
      var nfa, pf := RegexToNfa(regex).value, ToPostfix(regex).value;
      && WellFormed(nfa)
      && |nfa.accept| == 1 && nfa.start !in nfa.accept
      && (forall a :: a in nfa.alphabet ==> |a| == 1)
      && nfa.states <= NamesBelow(2 * |pf|)
  {
    ToPostfixFailsIff(regex);
    if PrefixBalanced(regex) {
      var pf := ToPostfix(regex).value;
      PostfixToNfaSpec(pf);
      if PostfixToNfa(pf).Success? {
        FragAsNfa(PostfixToNfa(pf).value);
      } else {
        assert PostfixToNfa(pf).error != UnmatchedClose;
      }
    }
  }
}
