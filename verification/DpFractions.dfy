/**
 Exact rational arithmetic over unbounded integers, as the differential-privacy
 samplers use it (lib/ai-dp.js, `_gcd`, `_fr*`, `_floorSqrtFrac`).
 */
module DpFractions {
  import opened Arith

  /** A fraction as the source stores it: no invariant is attached to the record itself. */
  datatype Frac = Frac(num: int, den: int)

  /** Integer division that truncates toward zero, as BigInt `/` does. */
  function TruncDiv(a: int, b: int): int
    requires b > 0
  {
    if a < 0 then -((-a) / b) else a / b
  }

  // ---------------------------------------------------------------- gcd

  function Gcd(a: nat, b: nat): nat
    decreases b
  {
    if b == 0 then a else Gcd(b, a % b)
  }

  ghost predicate Divides(d: int, n: int) {
    exists q: int :: d * q == n
  }

  ghost predicate IsGcd(g: nat, a: int, b: int) {
    && Divides(g, a)
    && Divides(g, b)
    && forall d: int :: Divides(d, a) && Divides(d, b) ==> Divides(d, g)
  }

  lemma DividesLinear(d: int, a: int, b: int, k: int)
    requires Divides(d, a) && Divides(d, b)
    ensures Divides(d, a + k * b)
  {
    var p: int :| d * p == a;
    var q: int :| d * q == b;
    assert d * (p + k * q) == a + k * b by {
      assert d * (k * q) == k * (d * q);
    }
  }

  lemma DividesAbs(d: int, n: int)
    ensures Divides(d, n) <==> Divides(d, Abs(n))
  {
    if Divides(d, n) {
      var q: int :| d * q == n;
      assert d * (-q) == -n;
    }
    if Divides(d, Abs(n)) {
      var q: int :| d * q == Abs(n);
      assert d * (-q) == -(Abs(n) as int);
    }
  }

  /** Euclid's recursion computes the greatest common divisor. */
  lemma {:induction false} GcdIsGcd(a: nat, b: nat)
    ensures IsGcd(Gcd(a, b), a, b)
    decreases b
  {
    if b == 0 {
      assert a * 1 == a && a * 0 == 0;
    } else {
      var g, q, r := Gcd(a, b), a / b, a % b;
      GcdIsGcd(b, r);
      DividesLinear(g, r, b, q);
      assert r + q * b == a;
      forall d: int | Divides(d, a) && Divides(d, b)
        ensures Divides(d, g)
      {
        DividesLinear(d, a, b, -q);
        assert a + (-q) * b == r;
      }
    }
  }

  /** `_gcd`: absolute values, then the remainder loop. */
  method ComputeGcd(x: int, y: int) returns (g: nat)
    ensures g == Gcd(Abs(x), Abs(y))
    ensures IsGcd(g, x, y)
  {
    var a, b := Abs(x), Abs(y);
    while b != 0
      invariant a >= 0 && b >= 0
      invariant Gcd(a, b) == Gcd(Abs(x), Abs(y))
      decreases b
    {
      var t := a % b;
      a := b;
      b := t;
    }
    g := a;
    GcdIsGcd(Abs(x), Abs(y));
    DividesAbs(g, x);
    DividesAbs(g, y);
    forall d: int | Divides(d, x) && Divides(d, y)
      ensures Divides(d, g)
    {
      DividesAbs(d, x);
      DividesAbs(d, y);
    }
  }

  // ---------------------------------------------------------------- fractions

  /** `_fr`: sign moved to the numerator, then lowest terms. A zero denominator is not refused. */
  function Fr(num: int, den: int): Frac {
    var n := if den < 0 then -num else num;
    var d := if den < 0 then -den else den;
    var g0 := Gcd(Abs(n), d);
    var g := if g0 == 0 then 1 else g0;
    Frac(TruncDiv(n, g), TruncDiv(d, g))
  }

  function FrMul(a: Frac, b: Frac): Frac {
    Fr(a.num * b.num, a.den * b.den)
  }

  function FrSub(a: Frac, b: Frac): Frac {
    Fr(a.num * b.den - b.num * a.den, a.den * b.den)
  }

  predicate FrGt(a: Frac, b: Frac) {
    a.num * b.den > b.num * a.den
  }

  /** The rational number a fraction stands for. */
  ghost function Val(f: Frac): real
    requires f.den != 0
  {
    f.num as real / f.den as real
  }

  ghost predicate LowestTerms(f: Frac) {
    && f.den > 0
    && forall d: int :: Divides(d, f.num) && Divides(d, f.den) ==> Abs(d) == 1
  }

  lemma TruncDivExact(n: int, g: int)
    requires g > 0 && Divides(g, n)
    ensures g * TruncDiv(n, g) == n
  {
    var q: int :| g * q == n;
    assert n / g == q by { DivOfMultiple(g, q); assert q * g == g * q; }
    assert (-n) / g == -q by { DivOfMultiple(g, -q); assert (-q) * g == -n; }
  }

  lemma GcdPositive(a: nat, b: nat)
    requires b > 0
    ensures Gcd(a, b) > 0
  {
    GcdIsGcd(a, b);
    var q: int :| Gcd(a, b) * q == b;
  }

  /** Multiplying through by g preserves a common divisor. */
  lemma ScaledDivisor(g: int, d: int, n: int, m: int)
    requires g * n == m && Divides(d, n)
    ensures Divides(g * d, m)
  {
    var q: int :| d * q == n;
    assert (g * d) * q == g * (d * q);
  }

  lemma DividesBound(d: int, n: int)
    requires n > 0 && Divides(d, n)
    ensures Abs(d) <= n && d != 0
  {
    var q: int :| d * q == n;
    FactorBound(d, q, n);
  }

  lemma UnitFactor(g: int, d: int)
    requires g > 0 && d != 0 && Abs(g * d) <= g
    ensures Abs(d) == 1
  {
    if d >= 2 { MulMono(2, d, g); assert false; }
    if d <= -2 { MulMono(d, -2, g); assert false; }
  }

  /** `_fr` keeps the value, makes the denominator positive and reaches lowest terms;
      with a zero denominator the result still has a zero denominator. */
  lemma FrMeaning(num: int, den: int)
    ensures den == 0 ==> Fr(num, den).den == 0
    ensures den != 0 ==>
              && LowestTerms(Fr(num, den))
              && Fr(num, den).num * den == num * Fr(num, den).den
              && Val(Fr(num, den)) == num as real / den as real
  {
    if den != 0 {
      var n := if den < 0 then -num else num;
      var d := Abs(den);
      var g := Gcd(Abs(n), d);
      GcdPositive(Abs(n), d);
      GcdIsGcd(Abs(n), d);
      DividesAbs(g, n);
      TruncDivExact(n, g);
      TruncDivExact(d, g);
      var r := Fr(num, den);
      assert g * r.num == n && g * r.den == d;
      assert r.den > 0 by { if r.den <= 0 { MulMono(r.den, 0, g); assert false; } }
      forall c: int | Divides(c, r.num) && Divides(c, r.den)
        ensures Abs(c) == 1
      {
        ScaledDivisor(g, c, r.num, n);
        ScaledDivisor(g, c, r.den, d);
        DividesAbs(g * c, n);
        assert Divides(g * c, g);
        DividesBound(g * c, g);
        assert c != 0 by { DividesBound(c, r.den); }
        UnitFactor(g, c);
      }
      CrossMultiply(g, r.num, r.den, n, d);
      assert r.num * den == num * r.den by { if den < 0 { NegateBoth(r.num, den, num, r.den); } }
      RatioEqual(r.num, r.den, num, den);
    }
  }

  /** The value part of `FrMeaning` on its own. */
  lemma FrValue(num: int, den: int)
    requires den > 0
    ensures Fr(num, den).den > 0 && Val(Fr(num, den)) == num as real / den as real
  {
    FrMeaning(num, den);
  }

  lemma CrossMultiply(g: int, a: int, b: int, n: int, d: int)
    requires g * a == n && g * b == d
    ensures a * d == n * b
  {
    assert a * (g * b) == (g * a) * b;
  }

  lemma NegateBoth(a: int, d: int, n: int, b: int)
    requires a * (-d) == (-n) * b
    ensures a * d == n * b
  {
    assert a * (-d) == -(a * d);
    assert (-n) * b == -(n * b);
  }

  lemma RatioEqual(a: int, b: int, n: int, d: int)
    requires b != 0 && d != 0 && a * d == n * b
    ensures a as real / b as real == n as real / d as real
  {
    var x, y, p, q := a as real, b as real, n as real, d as real;
    assert x * q == p * y by { MulReal(a, d); MulReal(n, b); }
    RealCross(x, y, p, q);
  }

  lemma RealCross(x: real, y: real, p: real, q: real)
    requires y != 0.0 && q != 0.0 && x * q == p * y
    ensures x / y == p / q
  {
    assert x == (p * y) / q by { assert (x * q) / q == x; }
    assert (p * y) / q == (p / q) * y;
  }

  // Fraction arithmetic denotes arithmetic on the rationals.

  lemma FrGtValue(a: Frac, b: Frac)
    requires a.den > 0 && b.den > 0
    ensures FrGt(a, b) <==> Val(a) > Val(b)
  {
    MulReal(a.num, b.den);
    MulReal(b.num, a.den);
    RealGt(a.num as real, a.den as real, b.num as real, b.den as real);
  }

  lemma FrMulValue(a: Frac, b: Frac)
    requires a.den > 0 && b.den > 0
    ensures FrMul(a, b).den > 0 && Val(FrMul(a, b)) == Val(a) * Val(b)
  {
    PosMul(a.den, b.den);
    FrMeaning(a.num * b.num, a.den * b.den);
    MulReal(a.num, b.num);
    MulReal(a.den, b.den);
    RealMulDiv(a.num as real, a.den as real, b.num as real, b.den as real);
  }

  lemma FrSubValue(a: Frac, b: Frac)
    requires a.den > 0 && b.den > 0
    ensures FrSub(a, b).den > 0 && Val(FrSub(a, b)) == Val(a) - Val(b)
  {
    var n, d := a.num * b.den - b.num * a.den, a.den * b.den;
    PosMul(a.den, b.den);
    FrMeaning(n, d);
    SubRatio(a, b, n, d);
  }

  lemma SubRatio(a: Frac, b: Frac, n: int, d: int)
    requires a.den > 0 && b.den > 0 && d > 0
    requires n == a.num * b.den - b.num * a.den && d == a.den * b.den
    ensures n as real / d as real == Val(a) - Val(b)
  {
    var x, y, p, q := a.num as real, a.den as real, b.num as real, b.den as real;
    assert (a.num * b.den) as real == x * q by { MulReal(a.num, b.den); }
    assert (b.num * a.den) as real == p * y by { MulReal(b.num, a.den); }
    assert d as real == y * q by { MulReal(a.den, b.den); }
    RealSubDiv(x, y, p, q);
  }

  lemma RealMulDiv(x: real, y: real, p: real, q: real)
    requires y > 0.0 && q > 0.0
    ensures y * q > 0.0
    ensures (x * p) / (y * q) == (x / y) * (p / q)
  {
    var a, b := x / y, p / q;
    assert x == a * y && p == b * q;
    assert x * p == (a * b) * (y * q);
  }

  lemma RealSubDiv(x: real, y: real, p: real, q: real)
    requires y > 0.0 && q > 0.0
    ensures y * q > 0.0
    ensures (x * q - p * y) / (y * q) == x / y - p / q
  {
    var a, b := x / y, p / q;
    assert x == a * y && p == b * q;
    assert x * q - p * y == (a - b) * (y * q);
  }

  lemma RealGt(x: real, y: real, p: real, q: real)
    requires y > 0.0 && q > 0.0
    ensures x * q > p * y <==> x / y > p / q
  {
    var a, b := x / y, p / q;
    assert x == a * y && p == b * q;
    assert x * q - p * y == (a - b) * (y * q);
    assert y * q > 0.0;
    if a > b { assert (a - b) * (y * q) > 0.0; }
    if a < b { assert (b - a) * (y * q) > 0.0; }
  }

  // ---------------------------------------------------------------- integer square root

  /** `_floorSqrtFrac`: doubling, then bisection, gives floor(sqrt(num/den)). */
  method FloorSqrt(f: Frac) returns (a: nat)
    requires f.den > 0
    ensures f.num >= 0 ==> a * a * f.den <= f.num
    ensures f.num < (a + 1) * (a + 1) * f.den
    ensures f.num < 0 ==> a == 0
  {
    var num, den := f.num, f.den;
    a := 0;
    var b := 1;
    while b * b * den <= num
      invariant b >= 1
      invariant num < 0 ==> b == 1
      decreases num - b
    {
      Grows(b, den);
      b := 2 * b;
    }
    while a + 1 < b
      invariant 0 <= a < b
      invariant num < b * b * den
      invariant num >= 0 ==> a * a * den <= num
      invariant num < 0 ==> a == 0 && b == 1
      decreases b - a
    {
      var c := (a + b) / 2;
      if c * c * den <= num {
        a := c;
      } else {
        b := c;
      }
    }
  }

  lemma Grows(b: int, den: int)
    requires b >= 1 && den > 0
    ensures b <= b * b * den
  {
    assert b * b >= b;
    assert b * b * den >= b * b;
  }

  ghost predicate IsFloorSqrt(a: nat, f: Frac) {
    a * a * f.den <= f.num < (a + 1) * (a + 1) * f.den
  }

  /** The floor of the square root is unique, so the search order of `FloorSqrt` does not matter. */
  lemma FloorSqrtUnique(f: Frac, a: nat, b: nat)
    requires f.den > 0
    requires IsFloorSqrt(a, f) && IsFloorSqrt(b, f)
    ensures a == b
  {
    if a < b { SquareMono(a + 1, b, f.den); }
    if b < a { SquareMono(b + 1, a, f.den); }
  }

  lemma SquareMono(a: nat, b: nat, den: int)
    requires a <= b && den > 0
    ensures a * a * den <= b * b * den
  {
    MulMono(a, b, a);
    MulMono(a, b, b);
    MulMono(a * a, b * b, den);
  }
}
