/** Multiplication and division facts that are proved once and used by name. */
module Arithmetic {
  lemma MulAtMost(x: int, y: int, f: nat)
    requires x <= y
    ensures f * x <= f * y
  {
  }

  lemma QuotientBounds(v: nat, q: nat)
    requires q > 0
    ensures q * (v / q) <= v < q * (v / q + 1)
  {
  }

  lemma QuotientAtMost(a: nat, x: nat, bound: nat)
    requires x > 0 && a < x * (bound + 1)
    ensures a / x <= bound
  {
    QuotientBounds(a, x);
    if a / x > bound {
      MulAtMost(bound + 1, a / x, x);
    }
  }

  lemma QuotientIs(a: nat, x: nat, q: nat)
    requires x > 0 && x * q <= a < x * (q + 1)
    ensures a / x == q
  {
    QuotientAtMost(a, x, q);
    QuotientBounds(a, x);
    if a / x < q {
      MulAtMost(a / x + 1, q, x);
    }
  }

  lemma QuotientAtLeast(a: nat, x: nat, q: nat)
    requires x > 0 && x * q <= a
    ensures a / x >= q
  {
    QuotientBounds(a, x);
    if a / x < q {
      MulAtMost(a / x + 1, q, x);
    }
  }

  lemma NestedBounds(v: nat, a: nat, b: nat, x: nat, q: nat)
    requires a * x <= v < a * (x + 1) && b * q <= x < b * (q + 1)
    ensures (a * b) * q <= v < (a * b) * (q + 1)
  {
    MulAtMost(b * q, x, a);
    MulAtMost(x + 1, b * (q + 1), a);
    MulAssociates(a, b, q);
    MulAssociates(a, b, q + 1);
  }

  lemma MulAssociates(a: nat, b: nat, c: nat)
    ensures a * (b * c) == (a * b) * c
  {
  }

  lemma ProductIsPositive(a: nat, b: nat)
    requires a > 0 && b > 0
    ensures a * b > 0
  {
    MulAtMost(1, b, a);
  }

  function Div(v: nat, d: nat): nat
    requires d > 0
  {
    v / d
  }

  lemma DivBounds(v: nat, d: nat)
    requires d > 0
    ensures d * Div(v, d) <= v < d * (Div(v, d) + 1)
  {
    QuotientBounds(v, d);
  }

  lemma DivIs(v: nat, d: nat, q: nat)
    requires d > 0 && d * q <= v < d * (q + 1)
    ensures Div(v, d) == q
  {
    QuotientIs(v, d, q);
  }

  lemma DivideTwice(v: nat, a: nat, b: nat)
    requires a > 0 && b > 0
    ensures a * b > 0 && Div(Div(v, a), b) == Div(v, a * b)
  {
    hide Div;
    ProductIsPositive(a, b);
    DivBounds(v, a);
    DivBounds(Div(v, a), b);
    NestedBounds(v, a, b, Div(v, a), Div(Div(v, a), b));
    DivIs(v, a * b, Div(Div(v, a), b));
  }
}
