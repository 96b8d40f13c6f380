/** Products and quotients of unknown factors, kept behind names so that proofs stay linear. */
module Arithmetic {
  function Times(a: nat, b: nat): (r: nat)
    ensures 0 < a && 0 < b ==> 0 < r
  {
    a * b
  }

  function Div(a: nat, b: nat): nat
    requires 0 < b
  {
    a / b
  }

  function Mod(a: nat, b: nat): nat
    requires 0 < b
  {
    a % b
  }

  lemma Quotient(a: nat, b: nat)
    requires 0 < b
    ensures a == Times(Div(a, b), b) + Mod(a, b) && Mod(a, b) < b
  {
  }

  lemma TimesOne(c: nat)
    ensures Times(1, c) == c
  {
  }

  lemma Distribute(a: nat, b: nat, c: nat)
    ensures Times(a + b, c) == Times(a, c) + Times(b, c)
  {
  }

  /** Products grow with their first factor. */
  lemma {:induction false} Monotone(a: nat, b: nat, c: nat)
    ensures a <= b ==> Times(a, c) <= Times(b, c)
    ensures a < b ==> Times(a, c) + c <= Times(b, c)
    decreases b
  {
    hide Times;
    if a < b {
      Monotone(a, b - 1, c);
      Distribute(b - 1, 1, c);
      TimesOne(c);
    }
  }

  lemma {:induction false} QuotientIs(a: nat, b: nat, q: nat, r: nat)
    requires r < b && a == Times(q, b) + r
    ensures Div(a, b) == q && Mod(a, b) == r
  {
    hide Times, Div, Mod;
    Quotient(a, b);
    Monotone(q, Div(a, b), b);
    Monotone(Div(a, b), q, b);
  }

  lemma Below(a: nat, b: nat, c: nat)
    requires 0 < c
    ensures a < Times(b, c) ==> Div(a, c) < b
  {
    hide Times, Div, Mod;
    Quotient(a, c);
    Monotone(b, Div(a, c), c);
  }

  lemma Commute(a: nat, b: nat)
    ensures Times(a, b) == Times(b, a)
  {
  }

  lemma Associate(a: nat, b: nat, c: nat)
    ensures Times(a, Times(b, c)) == Times(Times(a, b), c)
  {
  }
}
