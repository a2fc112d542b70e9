/**
 The discrete Gaussian sampler of lib/ai-dp.js when its variance rounds to zero, which it does for a
 small enough positive one. No law holds then: the sampler cannot return.
 */
module DpZeroVariance {
  import opened Arith
  import opened DpFractions
  import opened DpSamplers
  import opened DpLaws

  /** The acceptance exponent is a number exactly when the variance is not zero. */
  lemma BiasDefinedExactly(sigma2: Frac, t: int, y: int)
    requires sigma2.num >= 0 && sigma2.den > 0 && t >= 1
    ensures Bias(sigma2, t, y).den > 0 <==> sigma2.num > 0
  {
    hide Bias;
    if sigma2.num > 0 {
      BiasValue(sigma2, t, y);
    } else {
      ZeroBias(sigma2, t, y);
    }
  }

  lemma ZeroBias(sigma2: Frac, t: int, y: int)
    requires sigma2.num == 0 && sigma2.den > 0 && t >= 1
    ensures Bias(sigma2, t, y) == if y == 0 then Frac(0, 0) else Frac(1, 0)
  {
    hide Fr;
    var n := Abs(y);
    PosMul(sigma2.den, t);
    ZeroOver(sigma2.den);
    ZeroOver(sigma2.den * t);
    OverOne(n);
    OverOne(n * n);
    OverZero(1);
    assert n * n >= 0 && (n * n == 0 <==> y == 0) by { MulMono(0, n, n); if n >= 1 { MulMono(1, n, n); } }
    assert FrSub(Fr(n, 1), Fr(0, sigma2.den * t)) == Fr(n, 1);
    assert Fr(n, 1).num * Fr(n, 1).num == n * n;
    OverZero(n * n);
  }

  lemma ZeroOver(d: int)
    requires d > 0
    ensures Fr(0, d) == Frac(0, 1)
  {
    assert Gcd(0, d) == Gcd(d, 0) == d;
  }

  lemma OverOne(n: nat)
    ensures Fr(n, 1) == Frac(n, 1)
  {
    assert n == 0 || Gcd(n, 1) == Gcd(1, 0) == 1;
  }

  lemma OverZero(n: nat)
    ensures Fr(n, 0) == if n == 0 then Frac(0, 0) else Frac(1, 0)
  {
    assert Gcd(n, 0) == n;
  }

  /** A coin for an infinite exponent never comes up 1. */
  lemma {:induction false} InfiniteCoin(tape: Tape)
    ensures ExpRun(Frac(1, 0), tape) == Returned(0) || ExpRun(Frac(1, 0), tape) == Asking(Exp1(Fr(1, 1)))
    decreases |tape|
  {
    UnitFraction();
    OverZero(1);
    if tape != [] { InfiniteCoin(tape[1..]); }
  }

  /** With a variance of zero no candidate is ever accepted: the coin for any other candidate than zero
      cannot come up 1, and the coin for zero asks for a number below 0, which `UniformBelow` refuses
      with an exception. */
  lemma ZeroVarianceFails(sigma2: Frac, t: int, h: Tape, y: int)
    requires sigma2.num == 0 && sigma2.den > 0 && t >= 1 && Rejected(h)
    ensures GaussRun(sigma2, t, h + [y]) == Asking(Exp(Bias(sigma2, t, y)))
    ensures var b := Bias(sigma2, t, y);
            if y != 0 then forall tape: Tape :: ExpRun(b, tape) != Returned(1)
            else ExpRun(b, []) == Asking(Exp1(b)) && Exp1Run(b, 1, []) == Asking(Uniform(0))
  {
    hide Bias, Fr, GaussRun;
    GaussSkips(sigma2, t, h, [y]);
    ZeroBias(sigma2, t, y);
    UnitFraction();
    OverZero(0);
    assert GaussRun(sigma2, t, [y]) == Asking(Exp(Bias(sigma2, t, y))) by { OneCandidate(sigma2, t, y); }
    forall tape: Tape ensures ExpRun(Frac(1, 0), tape) != Returned(1) {
      InfiniteCoin(tape);
    }
  }

  lemma OneCandidate(sigma2: Frac, t: int, y: int)
    ensures GaussRun(sigma2, t, [y]) == Asking(Exp(Bias(sigma2, t, y)))
  {
  }
}
