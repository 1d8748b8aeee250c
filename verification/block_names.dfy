/**
 * Canonical names of partition blocks: the members sorted by Python's
 * string order, joined with commas and wrapped in braces.
 */
module BlockNames {

  import opened AutomataTypes

  /** Python's `a <= b` on strings: lexicographic by code point. */
  predicate LexLe(a: string, b: string)
    decreases |a|
  {
    |a| == 0 || (|b| > 0 && (a[0] < b[0] || (a[0] == b[0] && LexLe(a[1..], b[1..]))))
  }

  lemma {:induction false} LexLeReflexive(a: string)
    ensures LexLe(a, a)
    decreases |a|
  {
    if |a| > 0 {
      LexLeReflexive(a[1..]);
    }
  }

  lemma {:induction false} LexLeTotal(a: string, b: string)
    ensures LexLe(a, b) || LexLe(b, a)
    decreases |a|
  {
    if |a| > 0 && |b| > 0 && a[0] == b[0] {
      LexLeTotal(a[1..], b[1..]);
    }
  }

  lemma {:induction false} LexLeAntisymmetric(a: string, b: string)
    requires LexLe(a, b) && LexLe(b, a)
    ensures a == b
    decreases |a|
  {
    if |a| > 0 && |b| > 0 {
      LexLeAntisymmetric(a[1..], b[1..]);
      assert a == [a[0]] + a[1..];
      assert b == [b[0]] + b[1..];
    }
  }

  lemma {:induction false} LexLeTransitive(a: string, b: string, c: string)
    requires LexLe(a, b) && LexLe(b, c)
    ensures LexLe(a, c)
    decreases |a|
  {
    if |a| > 0 && a[0] == b[0] && b[0] == c[0] {
      LexLeTransitive(a[1..], b[1..], c[1..]);
    }
  }

  predicate IsLeast(m: string, B: set<string>)
  {
    m in B && forall y :: y in B ==> LexLe(m, y)
  }

  lemma {:induction false} LeastExists(B: set<string>)
    requires B != {}
    ensures exists m :: IsLeast(m, B)
    decreases |B|
  {
    var x :| x in B;
    if B - {x} == {} {
      assert B == {x};
      LexLeReflexive(x);
      assert IsLeast(x, B);
    } else {
      LeastExists(B - {x});
      var m :| IsLeast(m, B - {x});
      LexLeTotal(m, x);
      if LexLe(m, x) {
        assert IsLeast(m, B);
      } else {
        forall y | y in B ensures LexLe(x, y) {
          if y == x {
            LexLeReflexive(x);
          } else {
            assert y in B - {x};
            assert LexLe(m, y);
            LexLeTransitive(x, m, y);
          }
        }
        assert IsLeast(x, B);
      }
    }
  }

  /** The least member of a non-empty set of strings. */
  function Least(B: set<string>): (m: string)
    requires B != {}
    ensures IsLeast(m, B)
  {
    LeastExists(B);
    assert forall m1, m2 :: IsLeast(m1, B) && IsLeast(m2, B) ==> m1 == m2 by {
      forall m1, m2 | IsLeast(m1, B) && IsLeast(m2, B) ensures m1 == m2 {
        LexLeAntisymmetric(m1, m2);
      }
    }
    var m :| IsLeast(m, B);
    m
  }

  /** Python's `sorted(B)`: the members of `B` in ascending order, each once. */
  function Sorted(B: set<string>): (xs: seq<string>)
    ensures |xs| == |B|
    ensures forall x :: x in xs <==> x in B
    ensures forall i, j :: 0 <= i < j < |xs| ==> LexLe(xs[i], xs[j]) && xs[i] != xs[j]
    decreases |B|
  {
    if B == {} then []
    else
      var m := Least(B);
      var rest := Sorted(B - {m});
      forall j | 0 <= j < |rest| ensures LexLe(m, rest[j]) && m != rest[j] {
        assert rest[j] in rest;
        assert rest[j] in B - {m};
      }
      [m] + rest
  }

  /** The names of `xs` in order, separated by commas. */
  function Join(xs: seq<string>): string
    decreases |xs|
  {
    if |xs| == 0 then "" else if |xs| == 1 then xs[0] else xs[0] + "," + Join(xs[1..])
  }

  /** The name of a block: its members in increasing order, comma-separated, in braces. */
  function BlockName(B: set<State>): State
  {
    "{" + Join(Sorted(B)) + "}"
  }

  /** A name that cannot be confused inside a joined list: non-empty and comma-free. */
  predicate Plain(q: string)
  {
    q != "" && ',' !in q
  }

  /** The text before the first comma. */
  function UpToComma(s: string): string
    decreases |s|
  {
    if |s| == 0 || s[0] == ',' then "" else [s[0]] + UpToComma(s[1..])
  }

  lemma {:induction false} UpToCommaOfPrefix(x: string, rest: string)
    requires ',' !in x
    requires rest == "" || rest[0] == ','
    ensures UpToComma(x + rest) == x
    decreases |x|
  {
    if |x| > 0 {
      assert (x + rest)[1..] == x[1..] + rest;
      UpToCommaOfPrefix(x[1..], rest);
      assert x == [x[0]] + x[1..];
    }
  }

  lemma {:induction false} JoinShape(xs: seq<string>)
    requires 1 <= |xs|
    requires forall i :: 0 <= i < |xs| ==> Plain(xs[i])
    ensures UpToComma(Join(xs)) == xs[0]
    ensures |Join(xs)| == |xs[0]| <==> |xs| == 1
    ensures 1 <= |Join(xs)|
    ensures |xs| > 1 ==> Join(xs) == xs[0] + "," + Join(xs[1..])
  {
    if |xs| == 1 {
      assert Join(xs) == xs[0] + "";
      UpToCommaOfPrefix(xs[0], "");
    } else {
      assert forall i :: 0 <= i < |xs[1..]| ==> xs[1..][i] == xs[i + 1];
      JoinShape(xs[1..]);
      UpToCommaOfPrefix(xs[0], "," + Join(xs[1..]));
      assert Join(xs) == xs[0] + ("," + Join(xs[1..]));
    }
  }

  lemma {:induction false} JoinInjective(xs: seq<string>, ys: seq<string>)
    requires forall i :: 0 <= i < |xs| ==> Plain(xs[i])
    requires forall i :: 0 <= i < |ys| ==> Plain(ys[i])
    requires Join(xs) == Join(ys)
    ensures xs == ys
    decreases |xs|
  {
    if |xs| != 0 {
      JoinShape(xs);
    }
    if |ys| != 0 {
      JoinShape(ys);
    }
    if |xs| > 1 && |ys| > 1 {
      var j := Join(xs);
      assert Join(xs[1..]) == j[|xs[0]| + 1..];
      assert Join(ys[1..]) == j[|ys[0]| + 1..];
      JoinInjective(xs[1..], ys[1..]);
      assert xs == [xs[0]] + xs[1..];
      assert ys == [ys[0]] + ys[1..];
    }
  }

  /**
   * Block names identify blocks, provided no member name is empty or holds a
   * comma (otherwise `{"a,b"}` and `{"a","b"}` share the name `{a,b}`).
   */
  lemma BlockNameInjective(B1: set<State>, B2: set<State>)
    requires forall q :: q in B1 ==> Plain(q)
    requires forall q :: q in B2 ==> Plain(q)
    ensures BlockName(B1) == BlockName(B2) <==> B1 == B2
  {
    if BlockName(B1) == BlockName(B2) {
      var j1, j2 := Join(Sorted(B1)), Join(Sorted(B2));
      assert j1 == BlockName(B1)[1..|BlockName(B1)| - 1];
      assert j2 == BlockName(B2)[1..|BlockName(B2)| - 1];
      JoinInjective(Sorted(B1), Sorted(B2));
    }
  }
}
