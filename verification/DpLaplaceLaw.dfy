/**
 The law of the discrete Laplace sampler of lib/ai-dp.js over all its histories: `DpLaws` judges one
 history of rejected attempts, and here they are summed.
 */
module DpLaplaceLaw {
  import opened Arith
  import opened DpFractions
  import opened DpSamplers
  import opened DpLaws

  /** The history of m negative zeros. */
  ghost function ZeroTries(m: nat): Tape {
    if m == 0 then [] else ZeroTries(m - 1) + [0, 0]
  }

  lemma {:induction false} ZeroTriesShape(m: nat)
    ensures NegativeZeros(ZeroTries(m))
  {
    if m > 0 { ZeroTriesShape(m - 1); }
  }

  ghost function Power(r: real, m: nat): real {
    if m == 0 then 1.0 else Power(r, m - 1) * r
  }

  /** Weight of one negative zero, for q = exp(-d / n). */
  ghost function ZeroWeight(q: real): real {
    (1.0 / 2.0) * (1.0 - q)
  }

  /** exp(-d / n) */
  ghost function LaplaceRatio(E: real -> real, n: int, d: int): real
    requires n > 0
  {
    E(-Val(Frac(d, n)))
  }

  /** A negative zero is what the pair [0, 0] draws. */
  lemma ZeroTry(E: real -> real, n: int, d: int, h: Tape)
    requires IsExp(E) && n > 0 && d > 0 && NegativeZeros(h)
    ensures TapeWeight(E, LaplaceProc(Fr(d, n)), h, [0, 0]) == ZeroWeight(LaplaceRatio(E, n, d))
  {
    hide TapeWeight, Decay, Weight, IsExp;
    var x := Fr(d, n);
    FrValue(d, n);
    UnitFraction();
    LaplaceSkips(x, h, []);
    LaplaceSkips(x, h, [0]);
    assert h + [] == h;
    TwoCalls(E, LaplaceProc(x), h, Uniform(2), GeoFast(x), 0, 0);
    DrawWeight(E, 2, 0);
    FastZeroWeight(E, x);
  }

  lemma {:induction false} ZeroTriesWeight(E: real -> real, n: int, d: int, m: nat)
    requires IsExp(E) && n > 0 && d > 0
    ensures TapeWeight(E, LaplaceProc(Fr(d, n)), [], ZeroTries(m)) == Power(ZeroWeight(LaplaceRatio(E, n, d)), m)
  {
    hide TapeWeight, IsExp, LaplaceProc, Fr, ZeroWeight, LaplaceRatio;
    var proc := LaplaceProc(Fr(d, n));
    if m == 0 {
      NoWeight(E, proc);
    } else {
      var h := ZeroTries(m - 1);
      ZeroTriesShape(m - 1);
      ZeroTriesWeight(E, n, d, m - 1);
      TapeWeightSplit(E, proc, [], h, [0, 0]);
      assert [] + h == h;
      ZeroTry(E, n, d, h);
    }
  }

  lemma FastZeroWeight(E: real -> real, x: Frac)
    requires IsExp(E) && x.den > 0
    ensures Weight(E, GeoFast(x), 0) == 1.0 - E(-Val(x))
  {
    hide Decay;
    DecayZero(E, Val(x));
  }

  lemma NoWeight(E: real -> real, proc: Tape -> Run)
    ensures TapeWeight(E, proc, [], []) == 1.0
  {
  }

  /** Weight of returning z within tries + 1 attempts. */
  ghost function LaplaceWithin(E: real -> real, n: int, d: int, z: int, tries: nat): real
    decreases tries
  {
    TapeWeight(E, LaplaceProc(Fr(d, n)), [], ZeroTries(tries) + SignAndMagnitude(z))
    + if tries == 0 then 0.0 else LaplaceWithin(E, n, d, z, tries - 1)
  }

  /** The normalised law: with q = exp(-d / n), within tries + 1 attempts z is returned with weight
      (1 - q) / (1 + q) * q^|z| times 1 - ((1 - q) / 2)^(tries + 1). */
  lemma {:induction false} LaplaceNormalised(E: real -> real, n: int, d: int, z: int, tries: nat)
    requires IsExp(E) && n > 0 && d > 0
    ensures var q := LaplaceRatio(E, n, d);
            LaplaceWithin(E, n, d, z, tries) * (1.0 + q)
            == ((1.0 - q) * Weight(E, Laplace(n, d), z)) * (1.0 - Power(ZeroWeight(q), tries + 1))
  {
    hide TapeWeight, Weight, LaplaceProc, Power, LaplaceRatio;
    var q, w := LaplaceRatio(E, n, d), Weight(E, Laplace(n, d), z);
    ZeroTriesShape(tries);
    LaplaceIsExact(E, n, d, ZeroTries(tries), z);
    ZeroTriesWeight(E, n, d, tries);
    LaplaceRatioIs(E, n, d);
    PowerStep(ZeroWeight(q), tries);
    if tries > 0 { LaplaceNormalised(E, n, d, z, tries - 1); }
    AddAttempt(q, w, Power(ZeroWeight(q), tries), if tries == 0 then 0.0 else LaplaceWithin(E, n, d, z, tries - 1));
  }

  lemma LaplaceRatioIs(E: real -> real, n: int, d: int)
    requires n > 0
    ensures LaplaceRatio(E, n, d) == E(-Val(Frac(d, n)))
  {
  }

  lemma PowerStep(r: real, m: nat)
    ensures Power(r, 0) == 1.0 && Power(r, m + 1) == Power(r, m) * r
  {
  }

  /** One more term of the geometric sum. */
  lemma AddAttempt(q: real, w: real, p: real, before: real)
    requires before * (1.0 + q) == ((1.0 - q) * w) * (1.0 - p)
    ensures ((p * ZeroWeight(q) * w) + before) * (1.0 + q) == ((1.0 - q) * w) * (1.0 - p * ZeroWeight(q))
  {
    var r, c := ZeroWeight(q), (1.0 - q) * w;
    assert (p * r * w) * (1.0 + q) == (p * w) * (r * (1.0 + q));
    assert r * (1.0 + q) == (1.0 - q) * (1.0 - r);
    assert (p * w) * ((1.0 - q) * (1.0 - r)) == (p * c) * (1.0 - r);
    assert c * (1.0 - p) + (p * c) * (1.0 - r) == c * (1.0 - p * r);
  }
}
