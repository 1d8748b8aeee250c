/**
 * `to_postfix` of nfa.py: a shunting-yard pass over the regex characters
 * that inserts an explicit `.` for implicit concatenation.
 */
module Postfix {

  import opened Wrappers

  /** The ways `regex_to_nfa` fails; each is a pop from an empty list in the source. */
  datatype CompileError =
    | UnmatchedClose          // `)` with no `(` left on the operator stack
    | MissingOperand(op: char) // an operator with too few fragments below it
    | EmptyExpression         // no fragment at all once the postfix is consumed

  /** The `precedence` table; only `|` and `.` are ever looked up. */
  function Precedence(op: char): nat
  {
    if op == '*' then 4 else if op == '+' then 3 else if op == '.' then 2 else if op == '|' then 1 else 0
  }

  /** A character taken by the literal branch: everything but `( | * + )`. */
  predicate IsOperand(c: char)
  {
    c != '(' && c != '|' && c != '*' && c != '+' && c != ')'
  }

  /** A character that can sit on the operator stack. */
  predicate IsStackOp(c: char)
  {
    c == '(' || c == '|' || c == '.'
  }

  /** Whether a literal after `prev` gets an implicit `.` in front of it. */
  predicate InsertsConcat(prev: Option<char>)
  {
    prev.Some? && prev.value != '(' && prev.value != '|' && prev.value != '.'
  }

  datatype Shunt = Shunt(output: seq<char>, stack: seq<char>, prev: Option<char>)

  function Reverse(s: seq<char>): (r: seq<char>)
    ensures |r| == |s|
    ensures forall i :: 0 <= i < |s| ==> r[i] == s[|s| - 1 - i]
    decreases |s|
  {
    if |s| == 0 then [] else [s[|s| - 1]] + Reverse(s[..|s| - 1])
  }

  lemma ReverseSnoc(s: seq<char>, x: char)
    ensures Reverse(s + [x]) == [x] + Reverse(s)
  {
    assert (s + [x])[..|s|] == s;
  }

  /**
   * Pop operators to the output while the top is not `(` and binds at least
   * as tightly as `p`; `p = 0` pops everything down to the nearest `(`.
   */
  function PopOps(output: seq<char>, stack: seq<char>, p: nat): (r: (seq<char>, seq<char>))
    ensures |r.1| <= |stack| && r.1 == stack[..|r.1|]
    ensures r.0 == output + Reverse(stack[|r.1|..])
    ensures forall j :: |r.1| <= j < |stack| ==> stack[j] != '(' && Precedence(stack[j]) >= p
    ensures |r.1| == 0 || r.1[|r.1| - 1] == '(' || Precedence(r.1[|r.1| - 1]) < p
    decreases |stack|
  {
    if |stack| > 0 && stack[|stack| - 1] != '(' && Precedence(stack[|stack| - 1]) >= p then
      var top, rest := stack[|stack| - 1], stack[..|stack| - 1];
      var r := PopOps(output + [top], rest, p);
      assert stack == rest + [top];
      PopOpsStep(output, top, rest, r.0, r.1);
      assert forall j :: |r.1| <= j < |rest| ==> rest[j] != '(' && Precedence(rest[j]) >= p;
      r
    else
      assert stack[|stack|..] == [];
      (output, stack)
  }

  /** Popping `top` first and then the rest keeps the shape `PopOps` promises. */
  lemma PopOpsStep(output: seq<char>, top: char, rest: seq<char>, out: seq<char>, stk: seq<char>)
    requires |stk| <= |rest| && stk == rest[..|stk|]
    requires out == (output + [top]) + Reverse(rest[|stk|..])
    ensures stk == (rest + [top])[..|stk|]
    ensures out == output + Reverse((rest + [top])[|stk|..])
  {
    assert (rest + [top])[|stk|..] == rest[|stk|..] + [top];
    ReverseSnoc(rest[|stk|..], top);
  }

  /** One iteration of the `for c in regex` loop. */
  function ShuntChar(st: Shunt, c: char): Result<Shunt, CompileError>
  {
    if c == '(' then
      Success(Shunt(st.output, st.stack + ['('], Some(c)))
    else if c == '|' then
      var (out, stk) := PopOps(st.output, st.stack, Precedence('|'));
      Success(Shunt(out, stk + ['|'], Some(c)))
    else if c == '*' || c == '+' then
      Success(Shunt(st.output + [c], st.stack, Some(c)))
    else if c == ')' then
      var (out, stk) := PopOps(st.output, st.stack, 0);
      if |stk| == 0 then Failure(UnmatchedClose)
      else Success(Shunt(out, stk[..|stk| - 1], Some(c)))
    else if InsertsConcat(st.prev) then
      var (out, stk) := PopOps(st.output, st.stack, Precedence('.'));
      Success(Shunt(out + [c], stk + ['.'], Some(c)))
    else
      Success(Shunt(st.output + [c], st.stack, Some(c)))
  }

  /** The loop state after the characters of `r`. */
  function ShuntAll(r: string): Result<Shunt, CompileError>
    decreases |r|
  {
    if |r| == 0 then Success(Shunt([], [], None))
    else
      var st :- ShuntAll(r[..|r| - 1]);
      ShuntChar(st, r[|r| - 1])
  }

  /** `to_postfix`: the loop, then the remaining stack flushed top first. */
  function ToPostfix(r: string): Result<seq<char>, CompileError>
  {
    var st :- ShuntAll(r);
    Success(st.output + Reverse(st.stack))
  }

  // ---------------------------------------------------------------------
  // Counting

  function Count(x: char, s: seq<char>): nat
    decreases |s|
  {
    if |s| == 0 then 0 else Count(x, s[..|s| - 1]) + (if s[|s| - 1] == x then 1 else 0)
  }

  /** The characters that go straight to the output: operands other than `.`, and `*`, `+`. */
  predicate IsDirect(c: char)
  {
    c != '(' && c != ')' && c != '|' && c != '.'
  }

  function Direct(s: seq<char>): seq<char>
    decreases |s|
  {
    if |s| == 0 then [] else Direct(s[..|s| - 1]) + (if IsDirect(s[|s| - 1]) then [s[|s| - 1]] else [])
  }

  /** How many implicit `.` the pass inserts: operands whose predecessor is not `(`, `|` or `.`. */
  function ImplicitConcats(r: string): nat
    decreases |r|
  {
    if |r| <= 1 then 0
    else
      ImplicitConcats(r[..|r| - 1])
      + (if IsOperand(r[|r| - 1]) && InsertsConcat(Some(r[|r| - 2])) then 1 else 0)
  }

  /** No prefix of `r` closes more parentheses than it opens. */
  predicate PrefixBalanced(r: string)
  {
    forall i :: 0 <= i <= |r| ==> Count(')', r[..i]) <= Count('(', r[..i])
  }

  lemma {:induction false} CountAppend(x: char, a: seq<char>, b: seq<char>)
    ensures Count(x, a + b) == Count(x, a) + Count(x, b)
    decreases |b|
  {
    if |b| == 0 {
      assert a + b == a;
    } else {
      assert (a + b)[..|a + b| - 1] == a + b[..|b| - 1];
      CountAppend(x, a, b[..|b| - 1]);
    }
  }

  lemma {:induction false} DirectAppend(a: seq<char>, b: seq<char>)
    ensures Direct(a + b) == Direct(a) + Direct(b)
    decreases |b|
  {
    if |b| == 0 {
      assert a + b == a;
    } else {
      assert (a + b)[..|a + b| - 1] == a + b[..|b| - 1];
      DirectAppend(a, b[..|b| - 1]);
    }
  }

  lemma {:induction false} CountReverse(x: char, s: seq<char>)
    ensures Count(x, Reverse(s)) == Count(x, s)
    decreases |s|
  {
    if |s| > 0 {
      CountReverse(x, s[..|s| - 1]);
      CountAppend(x, [s[|s| - 1]], Reverse(s[..|s| - 1]));
      assert Count(x, [s[|s| - 1]]) == (if s[|s| - 1] == x then 1 else 0) by {
        assert [s[|s| - 1]][..0] == [];
      }
    }
  }

  lemma {:induction false} DirectOfOperators(s: seq<char>)
    requires forall j :: 0 <= j < |s| ==> !IsDirect(s[j])
    ensures Direct(s) == []
    decreases |s|
  {
    if |s| > 0 {
      DirectOfOperators(s[..|s| - 1]);
    }
  }

  lemma {:induction false} CountAbsent(x: char, s: seq<char>)
    requires forall j :: 0 <= j < |s| ==> s[j] != x
    ensures Count(x, s) == 0
    decreases |s|
  {
    if |s| > 0 {
      CountAbsent(x, s[..|s| - 1]);
    }
  }

  // ---------------------------------------------------------------------
  // The loop invariant of the shunting-yard pass

  predicate StackOps(s: seq<char>)
  {
    forall j :: 0 <= j < |s| ==> IsStackOp(s[j])
  }

  /**
   * The characters of `r` are accounted for by the output and the stack:
   * every `(` still open sits on the stack, no `)` is kept, the direct
   * characters reach the output in order, and every `|` and `.` (explicit or
   * implicit) is in one of the two.
   */
  predicate Tallied(r: string, out: seq<char>, stk: seq<char>)
  {
    && Count('(', stk) == Count('(', r) - Count(')', r)
    && Count('(', out) == 0
    && Count(')', out) == 0
    && Count(')', stk) == 0
    && Direct(out) == Direct(r)
    && Count('|', out) + Count('|', stk) == Count('|', r)
    && Count('.', out) + Count('.', stk) == Count('.', r) + ImplicitConcats(r)
  }

  /** What holds of the loop state after the characters of `r`. */
  predicate ShuntInv(r: string, st: Shunt)
  {
    && StackOps(st.stack)
    && st.prev == (if |r| == 0 then None else Some(r[|r| - 1]))
    && PrefixBalanced(r)
    && Tallied(r, st.output, st.stack)
  }

  /** Popping operators to the output keeps the tally. */
  lemma PopOpsTallied(r: string, output: seq<char>, stack: seq<char>, p: nat)
    requires StackOps(stack) && Tallied(r, output, stack)
    ensures var (out, stk) := PopOps(output, stack, p); StackOps(stk) && Tallied(r, out, stk)
  {
    var (out, stk) := PopOps(output, stack, p);
    var popped := stack[|stk|..];
    assert stack == stk + popped;
    assert forall j :: 0 <= j < |popped| ==> popped[j] == '|' || popped[j] == '.';
    TalliedMove(r, output, stk, popped);
    assert forall j :: 0 <= j < |stk| ==> stk[j] == stack[j];
  }

  /** Moving operators from the top of the stack to the output, reversed, keeps the tally. */
  lemma TalliedMove(r: string, output: seq<char>, stk: seq<char>, popped: seq<char>)
    requires Tallied(r, output, stk + popped)
    requires forall j :: 0 <= j < |popped| ==> popped[j] == '|' || popped[j] == '.'
    ensures Tallied(r, output + Reverse(popped), stk)
  {
    MoveCounts('|', output, stk, popped);
    MoveCounts('.', output, stk, popped);
    MoveCounts('(', output, stk, popped);
    MoveCounts(')', output, stk, popped);
    CountAbsent('(', popped);
    CountAbsent(')', popped);
    CountAppend('(', stk, popped);
    CountAppend(')', stk, popped);
    DirectAppend(output, Reverse(popped));
    DirectOfOperators(Reverse(popped));
  }

  /** Moving `popped` from the top of the stack to the output, reversed, keeps every count. */
  lemma MoveCounts(x: char, output: seq<char>, stk: seq<char>, popped: seq<char>)
    ensures Count(x, output + Reverse(popped)) + Count(x, stk) == Count(x, output) + Count(x, stk + popped)
  {
    CountAppend(x, stk, popped);
    CountAppend(x, output, Reverse(popped));
    CountReverse(x, popped);
  }

  lemma PrefixBalancedSnoc(r: string, c: char)
    ensures PrefixBalanced(r + [c]) <==> PrefixBalanced(r) && Count(')', r + [c]) <= Count('(', r + [c])
  {
    var rc := r + [c];
    assert rc[..|rc|] == rc;
    assert forall i :: 0 <= i <= |r| ==> rc[..i] == r[..i];
  }

  lemma CountSnoc(x: char, r: string, c: char)
    ensures Count(x, r + [c]) == Count(x, r) + (if c == x then 1 else 0)
  {
    assert (r + [c])[..|r|] == r;
  }

  /** The four counts the tally keeps, one character later. */
  lemma CountsSnoc(r: string, c: char)
    ensures Count('(', r + [c]) == Count('(', r) + (if c == '(' then 1 else 0)
    ensures Count(')', r + [c]) == Count(')', r) + (if c == ')' then 1 else 0)
    ensures Count('|', r + [c]) == Count('|', r) + (if c == '|' then 1 else 0)
    ensures Count('.', r + [c]) == Count('.', r) + (if c == '.' then 1 else 0)
  {
    CountSnoc('(', r, c); CountSnoc(')', r, c); CountSnoc('|', r, c); CountSnoc('.', r, c);
  }

  lemma DirectSnoc(r: string, c: char)
    ensures Direct(r + [c]) == Direct(r) + (if IsDirect(c) then [c] else [])
  {
    assert (r + [c])[..|r|] == r;
  }

  /** Whether the character after `r` is preceded by an implicit `.`. */
  predicate ConcatBefore(r: string, c: char)
  {
    IsOperand(c) && |r| > 0 && InsertsConcat(Some(r[|r| - 1]))
  }

  lemma ImplicitConcatsSnoc(r: string, c: char)
    ensures ImplicitConcats(r + [c]) == ImplicitConcats(r) + (if ConcatBefore(r, c) then 1 else 0)
  {
    assert (r + [c])[..|r|] == r;
  }

  /** `(` or `|` pushed on the stack. */
  lemma TalliedPush(r: string, out: seq<char>, stk: seq<char>, c: char)
    requires Tallied(r, out, stk)
    requires c == '(' || c == '|'
    ensures Tallied(r + [c], out, stk + [c])
  {
    CountsSnoc(r, c);
    CountsSnoc(stk, c);
    DirectSnoc(r, c);
    ImplicitConcatsSnoc(r, c);
  }

  /** `*`, `+` or an operand with no implicit `.` sent straight to the output. */
  lemma TalliedEmit(r: string, out: seq<char>, stk: seq<char>, c: char)
    requires Tallied(r, out, stk)
    requires c == '*' || c == '+' || (IsOperand(c) && !ConcatBefore(r, c))
    ensures Tallied(r + [c], out + [c], stk)
  {
    CountsSnoc(r, c);
    CountsSnoc(out, c);
    DirectSnoc(r, c);
    DirectSnoc(out, c);
    ImplicitConcatsSnoc(r, c);
  }

  /** An operand after an implicit `.`: the operand to the output, the `.` to the stack. */
  lemma TalliedConcat(r: string, out: seq<char>, stk: seq<char>, c: char)
    requires Tallied(r, out, stk)
    requires ConcatBefore(r, c)
    ensures Tallied(r + [c], out + [c], stk + ['.'])
  {
    CountsSnoc(r, c);
    CountsSnoc(out, c);
    CountsSnoc(stk, '.');
    DirectSnoc(r, c);
    DirectSnoc(out, c);
    ImplicitConcatsSnoc(r, c);
  }

  /** `)` with its `(` on top of the stack: the `(` is dropped. */
  lemma TalliedClose(r: string, out: seq<char>, stk: seq<char>)
    requires Tallied(r, out, stk)
    requires |stk| > 0 && stk[|stk| - 1] == '('
    ensures Tallied(r + [')'], out, stk[..|stk| - 1])
  {
    CountsSnoc(r, ')');
    assert stk == stk[..|stk| - 1] + ['('];
    CountsSnoc(stk[..|stk| - 1], '(');
    DirectSnoc(r, ')');
    ImplicitConcatsSnoc(r, ')');
  }

  /** The parts of the invariant that do not count: stack contents, last character, balance. */
  lemma ShuntInvSnoc(r: string, st: Shunt, c: char, st': Shunt)
    requires ShuntInv(r, st)
    requires StackOps(st'.stack) && st'.prev == Some(c)
    requires Count(')', r + [c]) <= Count('(', r + [c])
    requires Tallied(r + [c], st'.output, st'.stack)
    ensures ShuntInv(r + [c], st')
  {
    PrefixBalancedSnoc(r, c);
  }

  lemma StackOpsSnoc(s: seq<char>, c: char)
    requires StackOps(s) && IsStackOp(c)
    ensures StackOps(s + [c])
  {
  }

  lemma ShuntOpenInv(r: string, st: Shunt)
    requires ShuntInv(r, st)
    ensures ShuntChar(st, '(').Success? && ShuntInv(r + ['('], ShuntChar(st, '(').value)
  {
    TalliedPush(r, st.output, st.stack, '(');
    StackOpsSnoc(st.stack, '(');
    CountsSnoc(r, '(');
    ShuntInvSnoc(r, st, '(', Shunt(st.output, st.stack + ['('], Some('(')));
  }

  lemma ShuntPostfixOpInv(r: string, st: Shunt, c: char)
    requires ShuntInv(r, st)
    requires c == '*' || c == '+'
    ensures ShuntChar(st, c).Success? && ShuntInv(r + [c], ShuntChar(st, c).value)
  {
    TalliedEmit(r, st.output, st.stack, c);
    CountsSnoc(r, c);
    ShuntInvSnoc(r, st, c, Shunt(st.output + [c], st.stack, Some(c)));
  }

  lemma ShuntBarInv(r: string, st: Shunt)
    requires ShuntInv(r, st)
    ensures ShuntChar(st, '|').Success? && ShuntInv(r + ['|'], ShuntChar(st, '|').value)
  {
    var (out, stk) := PopOps(st.output, st.stack, Precedence('|'));
    PopOpsTallied(r, st.output, st.stack, Precedence('|'));
    TalliedPush(r, out, stk, '|');
    StackOpsSnoc(stk, '|');
    CountsSnoc(r, '|');
    ShuntInvSnoc(r, st, '|', Shunt(out, stk + ['|'], Some('|')));
  }

  /** `)` fails exactly when no `(` is left open, and otherwise keeps the invariant. */
  lemma ShuntCloseInv(r: string, st: Shunt)
    requires ShuntInv(r, st)
    ensures ShuntChar(st, ')').Success? <==> PrefixBalanced(r + [')'])
    ensures ShuntChar(st, ')').Success? ==> ShuntInv(r + [')'], ShuntChar(st, ')').value)
    ensures ShuntChar(st, ')').Failure? ==> ShuntChar(st, ')').error == UnmatchedClose
  {
    var (out, stk) := PopOps(st.output, st.stack, 0);
    PopOpsTallied(r, st.output, st.stack, 0);
    CountsSnoc(r, ')');
    PrefixBalancedSnoc(r, ')');
    if |stk| == 0 {
      assert Count('(', stk) == 0;
    } else {
      assert stk[|stk| - 1] == '(';
      TalliedClose(r, out, stk);
      ShuntInvSnoc(r, st, ')', Shunt(out, stk[..|stk| - 1], Some(')')));
    }
  }

  lemma ShuntConcatInv(r: string, st: Shunt, c: char)
    requires ShuntInv(r, st)
    requires IsOperand(c) && InsertsConcat(st.prev)
    ensures ShuntChar(st, c).Success? && ShuntInv(r + [c], ShuntChar(st, c).value)
  {
    var (out, stk) := PopOps(st.output, st.stack, Precedence('.'));
    PopOpsTallied(r, st.output, st.stack, Precedence('.'));
    TalliedConcat(r, out, stk, c);
    StackOpsSnoc(stk, '.');
    CountsSnoc(r, c);
    ShuntInvSnoc(r, st, c, Shunt(out + [c], stk + ['.'], Some(c)));
  }

  lemma ShuntLiteralInv(r: string, st: Shunt, c: char)
    requires ShuntInv(r, st)
    requires IsOperand(c) && !InsertsConcat(st.prev)
    ensures ShuntChar(st, c).Success? && ShuntInv(r + [c], ShuntChar(st, c).value)
  {
    TalliedEmit(r, st.output, st.stack, c);
    CountsSnoc(r, c);
    ShuntInvSnoc(r, st, c, Shunt(st.output + [c], st.stack, Some(c)));
  }

  /** The shunting-yard loop succeeds exactly on prefix-balanced input, and keeps its invariant. */
  lemma {:induction false} ShuntAllInvariant(r: string)
    ensures ShuntAll(r).Success? <==> PrefixBalanced(r)
    ensures ShuntAll(r).Success? ==> ShuntInv(r, ShuntAll(r).value)
    ensures ShuntAll(r).Failure? ==> ShuntAll(r).error == UnmatchedClose
    decreases |r|
  {
    if |r| == 0 {
      assert r[..0] == [];
    } else {
      var r' := r[..|r| - 1];
      var c := r[|r| - 1];
      assert r == r' + [c];
      ShuntAllInvariant(r');
      PrefixBalancedSnoc(r', c);
      if ShuntAll(r').Success? {
        var st := ShuntAll(r').value;
        if c == '(' {
          ShuntOpenInv(r', st);
        } else if c == '|' {
          ShuntBarInv(r', st);
        } else if c == '*' || c == '+' {
          ShuntPostfixOpInv(r', st, c);
        } else if c == ')' {
          ShuntCloseInv(r', st);
        } else if InsertsConcat(st.prev) {
          ShuntConcatInv(r', st, c);
        } else {
          ShuntLiteralInv(r', st, c);
        }
      }
    }
  }

  /**
   * `to_postfix` fails exactly when some `)` has no `(` to match, that is when
   * a prefix of the input closes more parentheses than it opens.
   */
  lemma ToPostfixFailsIff(r: string)
    ensures ToPostfix(r).Failure? <==> !PrefixBalanced(r)
    ensures ToPostfix(r).Failure? ==> ToPostfix(r).error == UnmatchedClose
  {
    ShuntAllInvariant(r);
  }

  /**
   * On success the postfix keeps the operands (other than `.`) and the `*`,
   * `+` in input order, keeps every `|`, holds one `.` per input `.` plus one
   * per implicit concatenation, holds no `)`, and holds one `(` per `(` left
   * unmatched at the end.
   */
  lemma ToPostfixOutput(r: string)
    requires ToPostfix(r).Success?
    ensures Direct(ToPostfix(r).value) == Direct(r)
    ensures Count('|', ToPostfix(r).value) == Count('|', r)
    ensures Count('.', ToPostfix(r).value) == Count('.', r) + ImplicitConcats(r)
    ensures Count(')', ToPostfix(r).value) == 0
    ensures Count('(', ToPostfix(r).value) == Count('(', r) - Count(')', r)
  {
    ShuntAllInvariant(r);
    var st := ShuntAll(r).value;
    var pf := ToPostfix(r).value;
    assert pf == st.output + Reverse(st.stack);
    forall x: char ensures Count(x, pf) == Count(x, st.output) + Count(x, st.stack) {
      CountAppend(x, st.output, Reverse(st.stack));
      CountReverse(x, st.stack);
    }
    DirectAppend(st.output, Reverse(st.stack));
    DirectOfOperators(Reverse(st.stack));
  }
}
