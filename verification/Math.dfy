/**
 * Unsigned 256-bit arithmetic the checkpoints rely on
 * (contracts/lib/openzeppelin-contracts/contracts/utils/math/Math.sol): the average computed
 * with bit operations, the position of the highest bit, and the square root by seven Newton steps.
 */
module SolidityMath {
  import opened Arithmetic
  import opened Bytes

  // ---------- Average ----------

  function BitAnd(a: nat, b: nat): nat {
    if a == 0 || b == 0 then 0 else 2 * BitAnd(a / 2, b / 2) + if a % 2 == 1 && b % 2 == 1 then 1 else 0
  }

  function BitXor(a: nat, b: nat): nat {
    if a == 0 && b == 0 then 0 else 2 * BitXor(a / 2, b / 2) + if a % 2 != b % 2 then 1 else 0
  }

  /** Carries and sum without carries make up the sum. */
  lemma {:induction false} AndXor(a: nat, b: nat)
    ensures 2 * BitAnd(a, b) + BitXor(a, b) == a + b
  {
    if a != 0 || b != 0 {
      AndXor(a / 2, b / 2);
    }
  }

  /** The midpoint rounded down, with no intermediate value above the larger argument. */
  function Average(a: nat, b: nat): (m: nat)
    ensures m == (a + b) / 2
  {
    AndXor(a, b);
    BitAnd(a, b) + BitXor(a, b) / 2
  }

  // ---------- Binary logarithm ----------

  function Pow2(n: nat): (p: nat)
    ensures p > 0
  {
    if n == 0 then 1 else 2 * Pow2(n - 1)
  }

  lemma {:induction false} Pow2Sum(m: nat, n: nat)
    ensures Pow2(m + n) == Pow2(m) * Pow2(n)
  {
    if n > 0 {
      Pow2Sum(m, n - 1);
      assert Pow2(m + n) == 2 * Pow2(m + (n - 1)) && Pow2(n) == 2 * Pow2(n - 1);
      hide Pow2;
      DoubleFactor(Pow2(m), Pow2(n - 1));
    }
  }

  lemma DoubleFactor(p: nat, q: nat)
    ensures p * (2 * q) == 2 * (p * q)
  {
  }

  /** The bits of `a` above position `shifted`. */
  ghost predicate Shifted(a: nat, shifted: nat, value: nat) {
    Pow2(shifted) * value <= a < Pow2(shifted) * (value + 1)
  }

  lemma ShiftFurther(a: nat, shifted: nat, value: nat, k: nat)
    requires Shifted(a, shifted, value)
    ensures Shifted(a, shifted + k, value / Pow2(k))
  {
    Pow2Sum(shifted, k);
    hide Pow2;
    SplitShift(a, Pow2(shifted), Pow2(k), value);
  }

  lemma SplitShift(a: nat, p: nat, q: nat, value: nat)
    requires q > 0 && p * value <= a < p * (value + 1)
    ensures (p * q) * (value / q) <= a < (p * q) * (value / q + 1)
  {
    var v := value / q;
    QuotientBounds(value, q);
    MulAtMost(q * v, value, p);
    MulAtMost(value + 1, q * (v + 1), p);
    assert p * (q * v) == (p * q) * v;
    assert p * (q * (v + 1)) == (p * q) * (v + 1);
  }

  /** One step of the search: if there are bits above position k, drop the k lowest. */
  method DropBits(a: nat, shifted: nat, value: nat, k: nat) returns (shifted': nat, value': nat)
    requires Shifted(a, shifted, value) && 0 < value < Pow2(2 * k)
    ensures Shifted(a, shifted', value') && 0 < value' < Pow2(k)
    ensures shifted <= shifted' <= shifted + k
  {
    shifted', value' := shifted, value;
    Pow2Sum(k, k);
    if value / Pow2(k) > 0 {
      ShiftFurther(a, shifted, value, k);
      value' := value / Pow2(k);
      shifted' := shifted + k;
      QuotientBelow(value, Pow2(k));
    }
  }

  lemma QuotientBelow(v: nat, q: nat)
    requires 0 < q && v < q * q
    ensures v / q < q
  {
    if v / q >= q {
      MulAtMost(q, v / q, q);
    }
  }

  lemma {:induction false} BytesOfBits(n: nat)
    ensures Pow2(8 * n) == Pow256(n)
  {
    if n > 0 {
      BytesOfBits(n - 1);
      Pow2Sum(8 * (n - 1), 8);
      assert Pow2(8) == 256;
    }
  }

  lemma LastBit(a: nat, result: nat, value: nat)
    requires Shifted(a, result, value) && 0 < value < 4
    ensures var r := if value / 2 > 0 then result + 1 else result; Pow2(r) <= a < Pow2(r + 1)
  {
    var p := Pow2(result);
    assert Pow2(result + 1) == 2 * p && Pow2(result + 2) == 2 * Pow2(result + 1);
    hide Pow2;
    assert value == 1 || value == 2 || value == 3;
  }

  lemma StartOfSearch(a: nat)
    requires a < TWO_256
    ensures Shifted(a, 0, a) && a < Pow2(256) && Pow2(2) == 4
  {
    BytesOfBits(32);
    Pow256Values();
  }

  /** The exponent of the largest power of two that is not greater. */
  method Log2(a: nat) returns (result: nat)
    requires 0 < a < TWO_256
    ensures Pow2(result) <= a < Pow2(result + 1)
    ensures result < 256
  {
    StartOfSearch(a);
    hide Pow2, Shifted;
    var value;
    result, value := DropBits(a, 0, a, 128);
    result, value := DropBits(a, result, value, 64);
    result, value := DropBits(a, result, value, 32);
    result, value := DropBits(a, result, value, 16);
    result, value := DropBits(a, result, value, 8);
    result, value := DropBits(a, result, value, 4);
    result, value := DropBits(a, result, value, 2);
    LastBit(a, result, value);
    if value / 2 > 0 {
      result := result + 1;
    }
  }

  // ---------- Square root ----------

  ghost predicate IsRoot(a: nat, s: nat) {
    s * s <= a < (s + 1) * (s + 1)
  }

  ghost function Root(a: nat): (s: nat)
    ensures IsRoot(a, s)
  {
    if a == 0 then 0
    else
      var s := Root(a - 1);
      if (s + 1) * (s + 1) <= a then s + 1 else s
  }

  function Newton(a: nat, x: nat): nat
    requires x > 0
  {
    (x + a / x) / 2
  }

  lemma RootSquares(a: nat, s: nat)
    requires IsRoot(a, s)
    ensures s * s <= a <= s * s + 2 * s
  {
    assert (s + 1) * (s + 1) == s * s + 2 * s + 1;
  }

  lemma DistanceSquared(x: int, s: int)
    ensures (x - s) * (x - s) == x * x - 2 * (s * x) + s * s
    ensures 0 <= (x - s) * (x - s)
  {
  }

  /** The tangent at x: the quotient makes up for what x exceeds the root by. */
  lemma QuotientAboveTangent(a: nat, s: nat, x: nat)
    requires s * s <= a && x > 0
    ensures x + a / x >= 2 * s
  {
    DistanceSquared(x, s);
    QuotientBounds(a, x);
    assert x * (2 * s - x) == 2 * (s * x) - x * x;
    if x + a / x < 2 * s {
      MulAtMost(a / x + 1, 2 * s - x, x);
    }
  }

  /** A step never falls below the root, and its excess is bounded by the squared distance before. */
  lemma NewtonStep(a: nat, s: nat, x: nat)
    requires IsRoot(a, s) && x > 0
    ensures Newton(a, x) >= s
    ensures 2 * (x * (Newton(a, x) - s)) <= (x - s) * (x - s) + (a - s * s)
    ensures 0 <= a - s * s <= 2 * s
  {
    RootSquares(a, s);
    StepNotBelow(a, s, x);
    StepExcess(a, s, x);
    DistanceSquared(x, s);
    hide *;
  }

  lemma StepNotBelow(a: nat, s: nat, x: nat)
    requires s * s <= a && x > 0
    ensures Newton(a, x) >= s
  {
    QuotientAboveTangent(a, s, x);
    assert Newton(a, x) == (x + a / x) / 2;
  }

  lemma StepExcess(a: nat, s: nat, x: nat)
    requires x > 0
    ensures 2 * (x * (Newton(a, x) - s)) <= x * x - 2 * (s * x) + a
  {
    var q, z := a / x, Newton(a, x);
    QuotientBounds(a, x);
    assert 2 * z <= x + q;
    hide Newton;
    ScaledStep(a, s, x, q, z);
  }

  lemma ScaledStep(a: nat, s: nat, x: nat, q: nat, z: nat)
    requires x * q <= a && 2 * z <= x + q
    ensures 2 * (x * (z - s)) <= x * x - 2 * (s * x) + a
  {
    MulAtMost(2 * z, x + q, x);
    assert x * (x + q) == x * x + x * q;
    assert x * (2 * z) == 2 * (x * z);
    assert x * (z - s) == x * z - s * x;
  }

  /** Above the root by at most 2 and one k-th of it. */
  ghost predicate Close(s: nat, x: nat, k: nat) {
    s <= x && k * (x - s - 2) <= s
  }

  /** The first guess is a power of two that is not above the root, and more than half of it. */
  lemma FirstStep(a: nat, s: nat, e: nat)
    requires IsRoot(a, s) && e <= s < 2 * e
    ensures s >= 4 ==> Close(s, Newton(a, e), 4)
    ensures s < 4 ==> s <= Newton(a, e) <= s + 1
  {
    NewtonStep(a, s, e);
    hide Newton, IsRoot;
    var z, d := Newton(a, e), s - e;
    assert (e - s) * (e - s) == d * d;
    MulAtMost(d, e, d);
    assert 2 * (e * (z - s)) <= d * e + 2 * s;
    if s >= 4 {
      FirstBound(s, e, d, z);
    } else {
      assert e == 1 || e == 2 || e == 3;
      assert d == 0 || (d == 1 && e == 2);
    }
  }

  lemma FirstBound(s: nat, e: nat, d: nat, z: nat)
    requires s == e + d && d < e && s <= z
    requires 2 * (e * (z - s)) <= d * d + 2 * s
    ensures 4 * (z - s - 2) <= s
  {
    assert e * (4 * (z - s)) == 4 * (e * (z - s));
    assert e * (s + 9) == e * e + e * d + 9 * e;
    MulAtMost(d, e, d);
    MulAtMost(d, e, e);
    assert d * e == e * d;
    if 4 * (z - s - 2) > s {
      MulAtMost(s + 9, 4 * (z - s), e);
    }
  }

  /** Newton's method converges quadratically: from one k-th to less than one k-squared-th. */
  lemma QuadraticStep(a: nat, s: nat, x: nat, k: nat)
    requires IsRoot(a, s) && s >= 4 && k >= 4 && Close(s, x, k)
    ensures Close(s, Newton(a, x), 2 * k * k)
  {
    NewtonStep(a, s, x);
    hide Newton, IsRoot;
    var z := Newton(a, x);
    MulAtMost(s, x, z - s);
    assert (z - s) * s == s * (z - s) && (z - s) * x == x * (z - s);
    QuadraticBound(s, x - s, z - s, k);
  }

  lemma QuadraticBound(s: nat, d: nat, d': nat, k: nat)
    requires s >= 4 && k >= 4 && k * (d - 2) <= s
    requires 2 * (s * d') <= d * d + 2 * s
    ensures 2 * k * k * (d' - 2) <= s
  {
    if d <= 2 {
      NearRoot(s, d, d');
      MulAtMost(d' - 2, 0, 2 * k * k);
    } else {
      var u, v, w := d - 2, d' - 2, 2 * k * k * (d' - 2);
      MulAtMost(4, k, u);
      assert d * d == u * u + 4 * u + 4;
      assert s * d' == s * v + 2 * s;
      assert 2 * (s * v) <= u * u;
      MulAtMost(2 * (s * v), u * u, k * k);
      ScaledSquare(s, u, k);
      Regroup(s, v, k);
      CancelRoot(s, w, w * s);
    }
  }

  lemma NearRoot(s: nat, d: nat, d': nat)
    requires s >= 4 && d <= 2 && 2 * (s * d') <= d * d + 2 * s
    ensures d' <= 1
  {
    assert d == 0 || d == 1 || d == 2;
    if d' > 1 { MulAtMost(2, d', s); }
  }

  lemma Regroup(s: nat, v: int, k: nat)
    ensures k * k * (2 * (s * v)) == (2 * k * k * v) * s
  {
  }

  lemma ScaledSquare(s: nat, u: nat, k: nat)
    requires k * u <= s
    ensures k * k * (u * u) <= s * s
  {
    MulAtMost(k * u, s, k * u);
    MulAtMost(k * u, s, s);
    assert k * k * (u * u) == (k * u) * (k * u);
  }

  lemma CancelRoot(s: nat, w: int, ws: int)
    requires s > 0 && ws <= s * s && ws == w * s
    ensures w <= s
  {
    if w > s { MulAtMost(s + 1, w, s); }
  }

  /** What each step of the method improves; small roots are within 1 from the first step on. */
  ghost predicate Closing(s: nat, x: nat, k: nat) {
    if s >= 4 then Close(s, x, k) else s <= x <= s + 1
  }

  lemma NextToRoot(a: nat, s: nat, x: nat)
    requires IsRoot(a, s) && 0 < s <= x <= s + 1
    ensures s <= Newton(a, x) <= s + 1
  {
    NewtonStep(a, s, x);
    hide Newton, IsRoot;
    var z := Newton(a, x);
    MulAtMost(s, x, z - s);
    assert (z - s) * s == s * (z - s) && (z - s) * x == x * (z - s);
    if z - s >= 2 { MulAtMost(2, z - s, s); }
  }

  /** Both summands of a step are close to the root. */
  lemma SumNearRoot(a: nat, s: nat, x: nat, k: nat)
    requires IsRoot(a, s) && 0 < s && k >= 4 && Closing(s, x, k)
    ensures x <= 2 * s + 3 && a / x <= s + 2
  {
    RootSquares(a, s);
    if x > 2 * s + 3 {
      MulAtMost(4, k, x - s - 2);
    }
    MulAtMost(s, x, s + 3);
    assert (s + 3) * s == s * s + 3 * s && (s + 3) * x == x * (s + 3);
    QuotientAtMost(a, x, s + 2);
  }

  const TWO_128: nat := TWO_64 * TWO_64

  /** `result = (result + a / result) >> 1` in unchecked 256-bit arithmetic. */
  function UncheckedStep(a: nat, x: nat): nat
    requires x > 0
  {
    (x + a / x) % TWO_256 / 2
  }

  lemma StepFits(a: nat, x: nat)
    requires x > 0 && x + a / x < TWO_256
    ensures UncheckedStep(a, x) == Newton(a, x)
  {
    SmallRemainder(x + a / x);
  }

  lemma SmallRemainder(v: nat)
    requires v < TWO_256
    ensures v % TWO_256 == v
  {
  }

  lemma Closer(a: nat, s: nat, x: nat, k: nat)
    requires IsRoot(a, s) && s > 0 && k >= 4 && Closing(s, x, k)
    ensures Closing(s, Newton(a, x), 2 * k * k)
  {
    if s >= 4 {
      QuadraticStep(a, s, x, k);
    } else {
      NextToRoot(a, s, x);
    }
    hide IsRoot, Newton, Close;
  }

  method Improve(a: nat, x: nat, ghost s: nat, ghost k: nat) returns (z: nat)
    requires IsRoot(a, s) && 0 < s < TWO_128 && k >= 4 && Closing(s, x, k)
    ensures z == Newton(a, x) && Closing(s, z, 2 * k * k)
  {
    SumNearRoot(a, s, x, k);
    assert x + a / x < TWO_256;
    StepFits(a, x);
    Closer(a, s, x, k);
    z := UncheckedStep(a, x);
    hide *;
  }

  /** The same step on the first guess. */
  method FirstImprove(a: nat, x: nat, ghost s: nat) returns (z: nat)
    requires IsRoot(a, s) && x <= s < 2 * x && s < TWO_128
    ensures Closing(s, z, 4)
  {
    FirstStep(a, s, x);
    GuessNearRoot(a, s, x);
    assert x + a / x < TWO_256;
    StepFits(a, x);
    z := UncheckedStep(a, x);
    hide IsRoot, Newton, Close;
  }

  lemma GuessBelowRoot(a: nat, s: nat, log: nat)
    requires IsRoot(a, s) && Pow2(log) <= a < Pow2(log + 1)
    ensures Pow2(log / 2) <= s < 2 * Pow2(log / 2)
  {
    var e := Pow2(log / 2);
    Pow2Sum(log / 2, log / 2);
    assert log == 2 * (log / 2) || log == 2 * (log / 2) + 1;
    assert Pow2(log + 1) == 2 * Pow2(log);
    assert e * e <= a < 4 * (e * e);
    hide Pow2;
    Between(a, s, e);
  }

  lemma SquaresOrder(x: nat, y: nat)
    ensures x <= y <==> x * x <= y * y
  {
    if x <= y {
      MulAtMost(x, y, x);
      MulAtMost(x, y, y);
    } else {
      MulAtMost(y, x, y);
      MulAtMost(y + 1, x, x);
    }
  }

  lemma Between(a: nat, s: nat, e: nat)
    requires IsRoot(a, s) && e * e <= a < 4 * (e * e)
    ensures e <= s < 2 * e
  {
    assert (2 * e) * (2 * e) == 4 * (e * e);
    SquaresOrder(s + 1, e);
    SquaresOrder(2 * e, s);
  }

  /** Close enough for one more step to miss by at most 1, and then by less than a half. */
  lemma LastNewton(a: nat, s: nat, x: nat)
    requires IsRoot(a, s) && 0 < s <= x && (x - s) * (x - s) <= s
    ensures var z := Newton(a, x); z == s || (z == s + 1 && s * s + s <= a)
  {
    NewtonStep(a, s, x);
    hide Newton, IsRoot;
    var z := Newton(a, x);
    if z - s >= 2 {
      MulAtMost(2, z - s, x);
    }
    assert z == s || z == s + 1;
    assert x * (z - s) == if z == s then 0 else x;
  }

  lemma NextFactor(a: nat, s: nat)
    requires s * s + s <= a <= s * s + 2 * s
    ensures a / (s + 1) == s
  {
    assert (s + 1) * s == s * s + s && (s + 1) * (s + 1) == s * s + 2 * s + 1;
    QuotientIs(a, s + 1, s);
  }

  /** The smaller factor of the last step is the root. */
  lemma LastStep(a: nat, s: nat, x: nat)
    requires IsRoot(a, s) && 0 < s <= x && (x - s) * (x - s) <= s
    ensures var z := Newton(a, x); z > 0 && (if z < a / z then z else a / z) == s
  {
    LastNewton(a, s, x);
    RootSquares(a, s);
    if Newton(a, x) == s {
      QuotientAtLeast(a, s, s);
    } else {
      NextFactor(a, s);
    }
    hide *;
  }

  const PRECISION: nat := 0x8000_0000 * TWO_64

  lemma CloseEnough(s: nat, x: nat)
    requires 0 < s < TWO_128 && Closing(s, x, PRECISION)
    ensures s <= x && (x - s) * (x - s) <= s
  {
    var d := x - s;
    if d <= 1 {
      assert d * d == d;
    } else if d == 2 {
      assert d * d == 4;
    } else {
      var u := d - 2;
      assert u < 0x2_0000_0000;
      MulAtMost(d, 3 * u, d);
      MulAtMost(d, 3 * u, 3 * u);
      MulAtMost(u, 0x2_0000_0000, u);
      assert d * (3 * u) == 3 * u * d && 3 * u * (3 * u) == 9 * (u * u);
    }
  }

  /** The root rounded down, for every 256-bit number. */
  method Sqrt(a: nat) returns (root: nat)
    requires a < TWO_256
    ensures root * root <= a < (root + 1) * (root + 1)
  {
    if a == 0 {
      return 0;
    }
    ghost var s := Root(a);
    RootFits(a, s);
    var log := Log2(a);
    var result := Pow2(log / 2);
    GuessBelowRoot(a, s, log);
    hide Closing, Newton, IsRoot, Pow2;
    result := FirstImprove(a, result, s);
    result := Improve(a, result, s, 4);
    result := Improve(a, result, s, 32);
    result := Improve(a, result, s, 2048);
    result := Improve(a, result, s, 0x80_0000);
    result := Improve(a, result, s, 0x8000_0000_0000);
    CloseEnough(s, result);
    LastStep(a, s, result);
    result := Improve(a, result, s, PRECISION);
    root := if result < a / result then result else a / result;
  }

  lemma RootFits(a: nat, s: nat)
    requires IsRoot(a, s) && 0 < a < TWO_256
    ensures 0 < s < TWO_128
  {
    SquaresOrder(TWO_128, s);
  }

  lemma GuessNearRoot(a: nat, s: nat, e: nat)
    requires IsRoot(a, s) && e <= s < 2 * e
    ensures a / e <= 4 * e
  {
    SquaresOrder(s + 1, 2 * e);
    assert (2 * e) * (2 * e) == e * (4 * e);
    QuotientAtMost(a, e, 4 * e);
  }
}
