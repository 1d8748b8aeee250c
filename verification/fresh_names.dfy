/**
 * Fresh state names `S0, S1, ...` handed out by the counter of one
 * regex compilation.
 */
module FreshNames {

  import opened AutomataTypes

  function DigitChar(d: nat): (c: char)
    requires d < 10
    ensures '0' <= c <= '9'
  {
    (48 + d) as char
  }

  /** Decimal representation of `n`, without leading zeros. */
  function Digits(n: nat): (s: string)
    ensures 1 <= |s|
    ensures n < 10 <==> |s| == 1
    ensures forall i :: 0 <= i < |s| ==> '0' <= s[i] <= '9'
    decreases n
  {
    if n < 10 then [DigitChar(n)] else Digits(n / 10) + [DigitChar(n % 10)]
  }

  /** The name `f"S{n}"` given to the `n`-th fresh state. */
  function StateName(n: nat): State
  {
    "S" + Digits(n)
  }

  lemma {:induction false} DigitsInjective(a: nat, b: nat)
    requires Digits(a) == Digits(b)
    ensures a == b
    decreases a
  {
    if a >= 10 && b >= 10 {
      var da, db := Digits(a), Digits(b);
      assert da[|da| - 1] == DigitChar(a % 10);
      assert db[|db| - 1] == DigitChar(b % 10);
      assert Digits(a / 10) == da[..|da| - 1];
      assert Digits(b / 10) == db[..|db| - 1];
      DigitsInjective(a / 10, b / 10);
    }
  }

  /** Distinct counter values give distinct names. */
  lemma StateNameInjective(a: nat, b: nat)
    ensures StateName(a) == StateName(b) <==> a == b
  {
    if StateName(a) == StateName(b) {
      assert Digits(a) == StateName(a)[1..];
      assert Digits(b) == StateName(b)[1..];
      DigitsInjective(a, b);
    }
  }

  /** The names handed out by a counter that has reached `n`: `S0` up to `S(n-1)`. */
  function NamesBelow(n: nat): set<State>
    decreases n
  {
    if n == 0 then {} else NamesBelow(n - 1) + {StateName(n - 1)}
  }

  /** `S(j)` has been handed out by a counter at `n` exactly when `j < n`. */
  lemma {:induction false} NamesBelowMembers(n: nat, j: nat)
    ensures StateName(j) in NamesBelow(n) <==> j < n
    decreases n
  {
    if n > 0 {
      NamesBelowMembers(n - 1, j);
      StateNameInjective(j, n - 1);
    }
  }

  /** Every name handed out is one of the counter's names. */
  lemma {:induction false} NamesBelowAreNames(n: nat, x: State)
    requires x in NamesBelow(n)
    ensures exists j :: 0 <= j < n && x == StateName(j)
    decreases n
  {
    if x != StateName(n - 1) {
      NamesBelowAreNames(n - 1, x);
    }
  }

  /** The next two names handed out are new and distinct. */
  lemma NextNameIsFresh(n: nat)
    ensures StateName(n) !in NamesBelow(n)
    ensures StateName(n + 1) !in NamesBelow(n)
    ensures StateName(n) != StateName(n + 1)
  {
    NamesBelowMembers(n, n);
    NamesBelowMembers(n, n + 1);
    StateNameInjective(n, n + 1);
  }

  lemma {:induction false} NamesBelowMonotone(m: nat, n: nat)
    requires m <= n
    ensures NamesBelow(m) <= NamesBelow(n)
    decreases n - m
  {
    if m < n {
      NamesBelowMonotone(m, n - 1);
    }
  }

  /** The two names a step hands out are fresh and below the advanced counter. */
  lemma FreshPair(n: nat)
    ensures {StateName(n), StateName(n + 1)} !! NamesBelow(n)
    ensures NamesBelow(n) + {StateName(n), StateName(n + 1)} <= NamesBelow(n + 2)
  {
    NextNameIsFresh(n);
    NamesBelowMonotone(n, n + 2);
    assert StateName(n) in NamesBelow(n + 2);
    assert StateName(n + 1) in NamesBelow(n + 2);
  }
}
