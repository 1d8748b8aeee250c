/**
 * Worked examples for `regex_to_nfa` of nfa.py: the postfix forms of the
 * regexes its docstring names, the ways malformed input fails, and the
 * parser's quirks.
 */
module RegexExamples {

  import opened Wrappers
  import opened AutomataTypes
  import opened Postfix
  import opened Thompson

  /** The loop state after one more character. */
  lemma ShuntAllSnoc(r: string, c: char)
    ensures ShuntAll(r + [c]) == if ShuntAll(r).Failure? then Failure(ShuntAll(r).error) else ShuntChar(ShuntAll(r).value, c)
  {
    assert (r + [c])[..|r|] == r;
  }

  /** The fragment stack after one more token. */
  lemma ReduceAllSnoc(pf: seq<char>, tok: char)
    ensures ReduceAll(pf + [tok]) == if ReduceAll(pf).Failure? then Failure(ReduceAll(pf).error) else ReduceToken(ReduceAll(pf).value, tok)
  {
    assert (pf + [tok])[..|pf|] == pf;
  }

  /** `a|b`: both literals, then the alternation. */
  lemma PostfixOfAlternation()
    ensures ToPostfix("a|b") == Success("ab|")
  {
    ShuntAllSnoc([], 'a');
    assert ShuntAll("a") == Success(Shunt("a", [], Some('a'))) by {
      assert [] + ['a'] == "a";
    }
    ShuntAllSnoc("a", '|');
    assert ShuntAll("a|") == Success(Shunt("a", "|", Some('|'))) by {
      assert PopOps("a", [], 1) == ("a", []);
      assert [] + ['|'] == "|";
      assert "a" + ['|'] == "a|";
    }
    ShuntAllSnoc("a|", 'b');
    assert ShuntAll("a|b") == Success(Shunt("ab", "|", Some('b'))) by {
      assert "a" + ['b'] == "ab";
      assert "a|" + ['b'] == "a|b";
    }
    assert "ab" + Reverse("|") == "ab|";
  }

  /** The loop state after `a`. */
  lemma ShuntOfA()
    ensures ShuntAll("a") == Success(Shunt("a", [], Some('a')))
  {
    ShuntAllSnoc([], 'a');
    assert [] + ['a'] == "a";
  }

  /** The loop state after `a|`: the bar waits on the stack. */
  lemma ShuntOfABar()
    ensures ShuntAll("a|") == Success(Shunt("a", "|", Some('|')))
  {
    ShuntOfA();
    ShuntAllSnoc("a", '|');
    assert PopOps("a", [], 1) == ("a", []);
    assert [] + ['|'] == "|";
    assert "a" + ['|'] == "a|";
  }

  /** The loop state after `a|b`: no concatenation follows a bar. */
  lemma ShuntOfABarB()
    ensures ShuntAll("a|b") == Success(Shunt("ab", "|", Some('b')))
  {
    ShuntOfABar();
    ShuntAllSnoc("a|", 'b');
    assert "a" + ['b'] == "ab";
    assert "a|" + ['b'] == "a|b";
  }

  /** One more character after a successful prefix applies that character to the loop state. */
  lemma ShuntAllThen(r: string, c: char, st: Shunt, res: Result<Shunt, CompileError>)
    requires ShuntAll(r) == Success(st) && ShuntChar(st, c) == res
    ensures ShuntAll(r + [c]) == res
  {
    ShuntAllSnoc(r, c);
  }

  /** A literal after a literal pushes a concatenation, which pops nothing above a waiting `|`. */
  lemma ConcatAboveBar()
    ensures ShuntChar(Shunt("ab", "|", Some('b')), 'c') == Success(Shunt("abc", "|.", Some('c')))
  {
    assert "ab" + ['c'] == "abc";
    assert "|" + ['.'] == "|.";
    assert PopOps("ab", "|", 2) == ("ab", "|");
  }

  /** In `a|bc`, the `|` stays below the concatenation of `b` and `c`, which binds tighter. */
  lemma ShuntOfBarThenLiterals()
    ensures ShuntAll("a|bc") == Success(Shunt("abc", "|.", Some('c')))
  {
    assert "a|b" + ['c'] == "a|bc";
    ShuntOfABarB();
    ConcatAboveBar();
    ShuntAllThen("a|b", 'c', Shunt("ab", "|", Some('b')), Success(Shunt("abc", "|.", Some('c'))));
  }

  /** `a|bc` reads as `a|(bc)`: the concatenation is emitted before the alternation. */
  lemma PostfixOfAlternationOfConcat()
    ensures ToPostfix("a|bc") == Success("abc.|")
  {
    ShuntOfBarThenLiterals();
    assert "abc" + Reverse("|.") == "abc.|";
  }

  /** The loop state after `ab`: the implicit concatenation waits on the stack. */
  lemma ShuntOfAB()
    ensures ShuntAll("ab") == Success(Shunt("ab", ".", Some('b')))
  {
    ShuntOfA();
    ShuntAllSnoc("a", 'b');
    assert PopOps("a", [], 2) == ("a", []);
    assert "a" + ['b'] == "ab";
    assert [] + ['.'] == ".";
  }

  /** In `ab|`, the `|` pops the pending concatenation before it is pushed. */
  lemma ShuntOfConcatThenBar()
    ensures ShuntAll("ab|") == Success(Shunt("ab.", "|", Some('|')))
  {
    ShuntOfAB();
    ShuntAllSnoc("ab", '|');
    assert PopOps("ab.", [], 1) == ("ab.", []);
    assert "ab" + ['.'] == "ab.";
    assert PopOps("ab", ".", 1) == ("ab.", []);
    assert [] + ['|'] == "|";
    assert "ab" + ['|'] == "ab|";
  }

  /** `ab|c` reads as `(ab)|c`. */
  lemma PostfixOfConcatThenAlternation()
    ensures ToPostfix("ab|c") == Success("ab.c|")
  {
    ShuntOfConcatThenBar();
    ShuntAllSnoc("ab|", 'c');
    assert ShuntAll("ab|c") == Success(Shunt("ab.c", "|", Some('c'))) by {
      assert "ab." + ['c'] == "ab.c";
      assert "ab|" + ['c'] == "ab|c";
    }
    assert "ab.c" + Reverse("|") == "ab.c|";
  }

  /** Inside the group of `(ab)*`, the concatenation waits on the stack above `(`. */
  lemma ShuntOfOpenGroup()
    ensures ShuntAll("(ab") == Success(Shunt("ab", "(.", Some('b')))
  {
    ShuntAllSnoc([], '(');
    assert ShuntAll("(") == Success(Shunt([], "(", Some('('))) by {
      assert [] + ['('] == "(";
    }
    ShuntAllSnoc("(", 'a');
    assert ShuntAll("(a") == Success(Shunt("a", "(", Some('a'))) by {
      assert [] + ['a'] == "a";
      assert "(" + ['a'] == "(a";
    }
    ShuntAllSnoc("(a", 'b');
    assert ShuntAll("(ab") == Success(Shunt("ab", "(.", Some('b'))) by {
      assert PopOps("a", "(", 2) == ("a", "(");
      assert "a" + ['b'] == "ab";
      assert "(" + ['.'] == "(.";
      assert "(a" + ['b'] == "(ab";
    }
  }

  /** `(ab)*`: the concatenation closes with the group, the star follows. */
  lemma PostfixOfStarredGroup()
    ensures ToPostfix("(ab)*") == Success("ab.*")
  {
    ShuntOfOpenGroup();
    ShuntAllSnoc("(ab", ')');
    assert ShuntAll("(ab)") == Success(Shunt("ab.", [], Some(')'))) by {
      assert PopOps("ab.", "(", 0) == ("ab.", "(");
      assert "(."[..1] == "(";
      assert "ab" + ['.'] == "ab.";
      assert PopOps("ab", "(.", 0) == ("ab.", "(");
      assert "("[..0] == [];
      assert "(ab" + [')'] == "(ab)";
    }
    ShuntAllSnoc("(ab)", '*');
    assert ShuntAll("(ab)*") == Success(Shunt("ab.*", [], Some('*'))) by {
      assert "ab." + ['*'] == "ab.*";
      assert "(ab)" + ['*'] == "(ab)*";
    }
    assert "ab.*" + Reverse([]) == "ab.*";
  }

  /** `ab+`: the `+` binds to `b` before the pending concatenation is flushed. */
  lemma PostfixOfPlus()
    ensures ToPostfix("ab+") == Success("ab+.")
  {
    ShuntAllSnoc([], 'a');
    assert ShuntAll("a") == Success(Shunt("a", [], Some('a'))) by {
      assert [] + ['a'] == "a";
    }
    ShuntAllSnoc("a", 'b');
    assert ShuntAll("ab") == Success(Shunt("ab", ".", Some('b'))) by {
      assert PopOps("a", [], 2) == ("a", []);
      assert "a" + ['b'] == "ab";
      assert [] + ['.'] == ".";
    }
    ShuntAllSnoc("ab", '+');
    assert ShuntAll("ab+") == Success(Shunt("ab+", ".", Some('+'))) by {
      assert "ab" + ['+'] == "ab+";
    }
    assert "ab+" + Reverse(".") == "ab+.";
  }

  /** In `a(b`, the `(` gets no concatenation in front of it. */
  lemma ShuntOfLiteralThenGroup()
    ensures ShuntAll("a(b") == Success(Shunt("ab", "(", Some('b')))
  {
    ShuntAllSnoc([], 'a');
    assert ShuntAll("a") == Success(Shunt("a", [], Some('a'))) by {
      assert [] + ['a'] == "a";
    }
    ShuntAllSnoc("a", '(');
    assert ShuntAll("a(") == Success(Shunt("a", "(", Some('('))) by {
      assert [] + ['('] == "(";
      assert "a" + ['('] == "a(";
    }
    ShuntAllSnoc("a(", 'b');
    assert ShuntAll("a(b") == Success(Shunt("ab", "(", Some('b'))) by {
      assert "a" + ['b'] == "ab";
      assert "a(" + ['b'] == "a(b";
    }
  }

  /** No `.` is inserted before `(`: in `a(b)` the fragment for `a` is dropped. */
  lemma NoConcatBeforeGroup()
    ensures ToPostfix("a(b)") == Success("ab")
  {
    ShuntOfLiteralThenGroup();
    ShuntAllSnoc("a(b", ')');
    assert ShuntAll("a(b)") == Success(Shunt("ab", [], Some(')'))) by {
      assert PopOps("ab", "(", 0) == ("ab", "(");
      assert "("[..0] == [];
      assert "a(b" + [')'] == "a(b)";
    }
    assert "ab" + Reverse([]) == "ab";
  }

  /** The explicit `.` of `a.b` is pushed as an operator. */
  lemma ShuntOfLiteralDot()
    ensures ShuntAll("a.") == Success(Shunt("a.", ".", Some('.')))
  {
    ShuntAllSnoc([], 'a');
    assert ShuntAll("a") == Success(Shunt("a", [], Some('a'))) by {
      assert [] + ['a'] == "a";
    }
    ShuntAllSnoc("a", '.');
    assert PopOps("a", [], 2) == ("a", []);
    assert "a" + ['.'] == "a.";
    assert [] + ['.'] == ".";
  }

  /** A literal `.` is read as the concatenation operator. */
  lemma DotIsConcat()
    ensures ToPostfix("a.b") == Success("a.b.")
  {
    ShuntOfLiteralDot();
    ShuntAllSnoc("a.", 'b');
    assert ShuntAll("a.b") == Success(Shunt("a.b", ".", Some('b'))) by {
      assert "a." + ['b'] == "a.b";
    }
    assert "a.b" + Reverse(".") == "a.b.";
  }

  /** A leftover `(` is flushed to the output and becomes a literal. */
  lemma OpenIsFlushed()
    ensures ToPostfix("(") == Success("(")
  {
    ShuntAllSnoc([], '(');
    assert ShuntAll("(") == Success(Shunt([], "(", Some('('))) by {
      assert [] + ['('] == "(";
    }
    assert [] + Reverse("(") == "(";
  }

  lemma EmptyRegexFails()
    ensures RegexToNfa("") == Failure(EmptyExpression)
  {
  }

  lemma LoneStarFails()
    ensures RegexToNfa("*") == Failure(MissingOperand('*'))
  {
  }

  lemma UnmatchedCloseFails()
    ensures RegexToNfa(")") == Failure(UnmatchedClose)
    ensures RegexToNfa("a)") == Failure(UnmatchedClose)
  {
  }

  lemma LeadingBarFails()
    ensures RegexToNfa("|a") == Failure(MissingOperand('|'))
  {
    ShuntAllSnoc([], '|');
    assert ShuntAll("|") == Success(Shunt([], "|", Some('|'))) by {
      assert PopOps([], [], 1) == ([], []);
      assert [] + ['|'] == "|";
    }
    ShuntAllSnoc("|", 'a');
    assert ShuntAll("|a") == Success(Shunt("a", "|", Some('a'))) by {
      assert [] + ['a'] == "a";
      assert "|" + ['a'] == "|a";
    }
    assert "a" + Reverse("|") == "a|";
    ReduceAllSnoc([], 'a');
    assert [] + ['a'] == "a";
    ReduceAllSnoc("a", '|');
    assert "a" + ['|'] == "a|";
  }
}
