/** Helpers shared by the geometry and alpha computations: the `Math`
    functions the source calls, C#'s truncating conversions, an exact integer
    square root standing in for `Math.Sqrt`, and a fact about sets that the
    registry sweeps need to pick their next entry. */
module Numeric {

  function Abs(x: int): (r: nat)
    ensures r == x || r == -x
  {
    if x < 0 then -x else x
  }

  function Min(a: int, b: int): (r: int)
    ensures r <= a && r <= b && (r == a || r == b)
  {
    if a <= b then a else b
  }

  function Max(a: int, b: int): (r: int)
    ensures r >= a && r >= b && (r == a || r == b)
  {
    if a >= b then a else b
  }

  /** `Math.Clamp(v, lo, hi)`. */
  function Clamp(v: int, lo: int, hi: int): (r: int)
    requires lo <= hi
    ensures lo <= r <= hi
    ensures lo <= v <= hi ==> r == v
    ensures v < lo ==> r == lo
    ensures v > hi ==> r == hi
  {
    if v < lo then lo else if v > hi then hi else v
  }

  /** q is a/b rounded toward zero: q*b is the multiple of b that lies
      nearest to a on the side of zero. */
  predicate IsTruncQuot(q: int, a: int, b: int) {
    && Abs(q * b) <= Abs(a) < Abs(q * b) + Abs(b)
    && (a >= 0 ==> q * b >= 0)
    && (a <= 0 ==> q * b <= 0)
  }

  /** The quotient a/b rounded toward zero, which is what C# integer division
      and the `(int)` cast of a finite double both produce. Dafny's own `/`
      rounds toward negative infinity for a positive divisor. */
  function TruncQuot(a: int, b: int): (q: int)
    requires b != 0
    ensures IsTruncQuot(q, a, b)
    ensures b > 0 && a >= 0 ==> 0 <= q && q * b <= a < (q + 1) * b
    ensures b > 0 && a < 0 ==> q <= 0 && (q - 1) * b < a <= q * b
  {
    if b > 0 then
      if a >= 0 then
        DivBounds(a, b);
        a / b
      else
        DivBounds(-a, b);
        NegateFactor((-a) / b, b);
        -((-a) / b)
    else
      if a >= 0 then
        DivBounds(a, -b);
        NegateFactor(a / (-b), b);
        -(a / (-b))
      else
        DivBounds(-a, -b);
        NegateFactor((-a) / (-b), b);
        (-a) / (-b)
  }

  /** Floor division of a non-negative number by a positive one. */
  lemma DivBounds(n: int, d: int)
    requires n >= 0 && d > 0
    ensures var t := n / d; 0 <= t && 0 <= t * d <= n < t * d + d && (t + 1) * d == t * d + d
    ensures var t := n / d; (t - 1) * d == t * d - d
  {
    var t := n / d;
    assert n == t * d + n % d;
  }

  lemma NegateFactor(x: int, y: int)
    ensures (-x) * y == -(x * y) && x * (-y) == -(x * y)
    ensures (-x - 1) * y == -(x * y) - y
  {
  }

  /** Dividing a non-negative product by a positive divisor, rounding toward
      zero, brackets the product between consecutive multiples of the
      divisor. */
  lemma TruncQuotBracket(x: int, y: int, b: int)
    requires x >= 0 && y >= 0 && b > 0
    ensures var q := TruncQuot(x * y, b); q >= 0 && q * b <= x * y < (q + 1) * b
  {
    assert x * y >= 0;
  }

  /** A non-zero multiple of b is at least as large as b in magnitude. */
  lemma MultipleAtLeast(d: int, b: int)
    requires d != 0
    ensures Abs(d * b) >= Abs(b)
  {
    if d > 0 {
      if b >= 0 { assert d * b >= b; } else { assert d * b <= b; }
    } else {
      if b >= 0 { assert d * b <= -b; } else { assert d * b >= -b; }
    }
  }

  /** Rounding toward zero has exactly one result. */
  lemma {:induction false} TruncQuotUnique(q1: int, q2: int, a: int, b: int)
    requires b != 0 && IsTruncQuot(q1, a, b) && IsTruncQuot(q2, a, b)
    ensures q1 == q2
  {
    if q1 != q2 {
      var m1, m2 := q1 * b, q2 * b;
      assert m1 - m2 == (q1 - q2) * b;
      MultipleAtLeast(q1 - q2, b);
      assert false;
    }
  }

  /** The largest r with r*r <= n. */
  function ISqrt(n: nat): (r: nat)
    ensures r * r <= n < (r + 1) * (r + 1)
    decreases n
  {
    if n == 0 then 0
    else
      var s := ISqrt(n / 4);
      QuarterStep(n, s);
      if (2 * s + 1) * (2 * s + 1) <= n then 2 * s + 1 else 2 * s
  }

  /** The step of `ISqrt`: the root of n is twice the root of n/4, or one more. */
  lemma QuarterStep(n: nat, s: nat)
    requires s * s <= n / 4 < (s + 1) * (s + 1)
    ensures (2 * s) * (2 * s) <= n < (2 * s + 2) * (2 * s + 2)
  {
    var q := n / 4;
    assert (2 * s) * (2 * s) == 4 * (s * s);
    assert (2 * s + 2) * (2 * s + 2) == 4 * ((s + 1) * (s + 1));
    assert q + 1 <= (s + 1) * (s + 1);
    assert n < 4 * (q + 1);
  }

  /** The smallest r with n <= r*r. */
  function CeilSqrt(n: nat): (r: nat)
    ensures n <= r * r
    ensures r > 0 ==> (r - 1) * (r - 1) < n
  {
    var s := ISqrt(n);
    if s * s == n then s else s + 1
  }

  /** An integer is the floor of x when x lies in [q, q+1). */
  lemma FloorUnique(x: real, q: int)
    requires q as real <= x < q as real + 1.0
    ensures x.Floor == q
  {
  }

  /** Floor of b + (x - c)/100: the fractional part of x never carries into
      the quotient, so the floor can be taken before dividing. */
  lemma FloorShiftDiv(x: real, c: int, b: int)
    ensures (b as real + (x - c as real) / 100.0).Floor == b + (x.Floor - c) / 100
  {
    var f := x.Floor;
    var q := (f - c) / 100;
    var rem := (f - c) % 100;
    assert f - c == 100 * q + rem && 0 <= rem < 100;
    assert (f - c) as real == 100.0 * q as real + rem as real;
    assert 100.0 * q as real <= x - c as real;
    assert x - c as real < 100.0 * q as real + 100.0;
    FloorUnique(b as real + (x - c as real) / 100.0, b + q);
  }

  function Square(x: int): (s: nat)
    ensures s == x * x
  {
    x * x
  }

  lemma NonZeroSquare(x: int)
    ensures x != 0 ==> Square(x) > 0
  {
    if x < 0 {
      assert Square(x) == (-x) * (-x);
    }
  }

  lemma SquareMonotone(a: int, b: int)
    requires 0 <= a <= b
    ensures Square(a) <= Square(b)
  {
    assert a * a <= a * b;
    assert a * b <= b * b;
  }

  lemma SquareStrict(a: int, b: int)
    requires 0 <= a < b
    ensures Square(a) < Square(b)
  {
    assert a * a <= a * b;
    assert a * b < b * b;
  }

  /** The real counterpart of `SquareStrict`. */
  lemma RealSquareStrict(a: real, b: real)
    requires 0.0 <= a < b
    ensures a * a < b * b
  {
    assert 0.0 <= a * (b - a);
    assert 0.0 < b * (b - a);
  }

  /** Squaring commutes with the conversion to real. */
  lemma CastSquare(r: int)
    ensures Square(r) as real == r as real * r as real
  {
  }

  /** A non-negative real whose square is the integer n lies in [r, r+1)
      for the integer square root r of n, and equals r exactly when n is a
      perfect square. */
  lemma RootBetween(x: real, n: nat, r: nat)
    requires 0.0 <= x && x * x == n as real
    requires r * r <= n < (r + 1) * (r + 1)
    ensures r as real <= x < r as real + 1.0
    ensures x == r as real <==> r * r == n
  {
    var rr := r as real;
    CastSquare(r);
    CastSquare(r + 1);
    assert ((r + 1) * (r + 1)) as real == (rr + 1.0) * (rr + 1.0);
    assert rr * rr <= x * x < (rr + 1.0) * (rr + 1.0);
    if x < rr {
      RealSquareStrict(x, rr);
    }
    if x >= rr + 1.0 {
      if x > rr + 1.0 {
        RealSquareStrict(rr + 1.0, x);
      }
    }
    if x != rr {
      RealSquareStrict(rr, x);
    }
  }

  /** The floor of a square root is the integer square root. */
  lemma FloorOfRoot(x: real, n: nat)
    requires 0.0 <= x && x * x == n as real
    ensures x.Floor == ISqrt(n)
  {
    RootBetween(x, n, ISqrt(n));
    FloorUnique(x, ISqrt(n));
  }

  /** The floor of a negated square root is the negated ceiling root. */
  lemma FloorOfNegRoot(x: real, n: nat)
    requires 0.0 <= x && x * x == n as real
    ensures (-x).Floor == -(CeilSqrt(n) as int)
  {
    var r: int := ISqrt(n);
    RootBetween(x, n, r);
    if r * r == n {
      FloorUnique(-x, -r);
    } else {
      FloorUnique(-x, -r - 1);
    }
  }

  lemma RealProductNonNegative(a: real, b: real)
    requires a >= 0.0 && b >= 0.0
    ensures a * b >= 0.0
  {
  }

  lemma FloorMonotone(x: real, y: real)
    requires x <= y
    ensures x.Floor <= y.Floor
  {
  }

  /** A member of a non-empty set. */
  method PickMember<T>(s: set<T>) returns (x: T)
    requires s != {}
    ensures x in s
  {
    if forall y :: y !in s {
      assert false;
    }
    x :| x in s;
  }
}
