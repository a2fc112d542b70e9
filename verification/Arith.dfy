/**
 Small facts about integer and real arithmetic that the solver does not find on its own.
 */
module Arith {

  lemma MulMono(a: int, b: int, c: int)
    requires a <= b && 0 <= c
    ensures a * c <= b * c
  {
  }

  lemma MulDistrib(a: int, b: int, c: int)
    ensures (a + b) * c == a * c + b * c
    ensures (a - b) * c == a * c - b * c
  {
  }

  /** Quotient and remainder are determined by their defining equation. */
  lemma DivModUnique(n: int, g: int, q: int, r: int)
    requires g > 0 && n == q * g + r && 0 <= r < g
    ensures n / g == q && n % g == r
  {
    var d, m := n / g, n % g;
    assert n == d * g + m;
    MulDistrib(q, d, g);
    assert (q - d) * g == m - r;
    if q - d >= 1 { MulMono(1, q - d, g); assert false; }
    if q - d <= -1 { MulMono(q - d, -1, g); assert false; }
  }

  lemma DivOfMultiple(g: int, q: int)
    requires g > 0
    ensures (q * g) / g == q && (q * g) % g == 0
  {
    DivModUnique(q * g, g, q, 0);
  }

  lemma DivBounds(n: int, g: int)
    requires g > 0
    ensures (n / g) * g <= n < (n / g) * g + g
  {
  }

  /** floor(n / g) == q is an interval condition on n. */
  lemma DivIsInterval(n: int, g: int, q: int)
    requires g > 0
    ensures n / g == q <==> q * g <= n < (q + 1) * g
  {
    MulDistrib(q, 1, g);
    if q * g <= n < (q + 1) * g { DivModUnique(n, g, q, n - q * g); }
  }

  lemma DivMono(a: int, b: int, g: int)
    requires a <= b && g > 0
    ensures a / g <= b / g
  {
    if a / g > b / g {
      MulMono(b / g + 1, a / g, g);
      MulDistrib(b / g, 1, g);
      DivBounds(a, g);
      DivBounds(b, g);
      assert false;
    }
  }

  lemma MulReal(a: int, b: int)
    ensures (a * b) as real == a as real * b as real
  {
  }

  lemma PosMul(a: int, b: int)
    requires a > 0 && b > 0
    ensures a * b > 0
  {
  }

  function Abs(n: int): nat {
    if n < 0 then -n else n
  }

  /** A positive product has a nonzero factor no larger than itself. */
  lemma FactorBound(d: int, q: int, n: int)
    requires n > 0 && d * q == n
    ensures d != 0 && q != 0 && Abs(d) <= n
  {
    if d > 0 {
      if q <= 0 { MulMono(q, 0, d); assert false; }
      MulMono(1, q, d);
    } else if d < 0 {
      if q >= 0 { MulMono(0, q, -d); assert false; }
      MulMono(1, -q, -d);
      assert (-q) * (-d) == n;
    } else {
      assert false;
    }
  }

  function Pow2(n: nat): (r: nat)
    ensures r > 0
  {
    if n == 0 then 1 else 2 * Pow2(n - 1)
  }

  lemma {:induction false} Pow2Add(a: nat, b: nat)
    ensures Pow2(a + b) == Pow2(a) * Pow2(b)
  {
    if a != 0 {
      Pow2Add(a - 1, b);
      assert Pow2(a + b) == 2 * Pow2(a - 1 + b);
      assert 2 * (Pow2(a - 1) * Pow2(b)) == (2 * Pow2(a - 1)) * Pow2(b);
    }
  }
}
