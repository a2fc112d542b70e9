/**
 The exact samplers of lib/ai-dp.js: Bernoulli(exp(-x)), geometric, discrete Laplace and
 discrete Gaussian (Canonne, Kamath and Steinke 2020).

 Each sampler runs on a tape that holds, in order, the outcomes of the primitives it calls.
 On a tape that is too short the run stops at the next call it would make. The law of a
 sampler is then read off its runs: every call has a weight for each outcome, and a tape
 weighs the product of its calls. `exp` is any function E with E(0) = 1 and
 E(a + b) = E(a) * E(b); no other fact about it is used.
 */
module DpSamplers {
  import opened Arith
  import opened DpFractions

  /** A call one sampler makes to the one below it. */
  datatype Query =
    | Uniform(m: int)                 // _uniformBelow(m)
    | Exp1(x: Frac)                   // _bernoulliExp1(x)
    | Exp(x: Frac)                    // _bernoulliExp(x)
    | GeoSlow(x: Frac)                // _geometricExpSlow(x)
    | GeoFast(x: Frac)                // _geometricExpFast(x)
    | Laplace(num: int, den: int)     // _sampleDLaplace(num, den)

  datatype Run = Returned(value: int) | Asking(query: Query)

  type Tape = seq<int>

  // ---------------------------------------------------------------- the samplers

  /** `_bernoulliExp1` from counter k on: one uniform draw per round. */
  function Exp1Run(x: Frac, k: int, tape: Tape): Run
    decreases |tape|
  {
    var p := Fr(x.num, x.den * k);
    if tape == [] then Asking(Uniform(p.den))
    else if tape[0] < p.num then Exp1Run(x, k + 1, tape[1..])
    else Returned(k % 2)
  }

  method BernoulliExp1(x: Frac, tape: Tape) returns (r: Run)
    ensures r == Exp1Run(x, 1, tape)
  {
    var k, i := 1, 0;
    while true
      invariant 0 <= i <= |tape| && k >= 1
      invariant Exp1Run(x, 1, tape) == Exp1Run(x, k, tape[i..])
      decreases |tape| - i
    {
      var p := Fr(x.num, x.den * k);
      if i == |tape| { return Asking(Uniform(p.den)); }
      var u := tape[i];
      assert tape[i..][1..] == tape[i + 1..];
      i := i + 1;
      if u < p.num {
        k := k + 1;
      } else {
        break;
      }
    }
    r := Returned(k % 2);
  }

  /** `_bernoulliExp`: peel units off x, then one call with the rest. */
  function ExpRun(x: Frac, tape: Tape): Run
    decreases |tape|
  {
    if FrGt(x, Fr(1, 1)) then
      if tape == [] then Asking(Exp1(Fr(1, 1)))
      else if tape[0] == 1 then ExpRun(FrSub(x, Fr(1, 1)), tape[1..])
      else Returned(0)
    else if tape == [] then Asking(Exp1(x))
    else Returned(tape[0])
  }

  method BernoulliExp(x0: Frac, tape: Tape) returns (r: Run)
    ensures r == ExpRun(x0, tape)
  {
    var x, i := x0, 0;
    while FrGt(x, Fr(1, 1))
      invariant 0 <= i <= |tape|
      invariant ExpRun(x0, tape) == ExpRun(x, tape[i..])
      decreases |tape| - i
    {
      if i == |tape| { return Asking(Exp1(Fr(1, 1))); }
      var b := tape[i];
      assert tape[i..][1..] == tape[i + 1..];
      i := i + 1;
      if b == 1 {
        x := FrSub(x, Fr(1, 1));
      } else {
        return Returned(0);
      }
    }
    if i == |tape| { return Asking(Exp1(x)); }
    r := Returned(tape[i]);
  }

  /** `_geometricExpSlow`: count successes. */
  function GeoSlowRun(x: Frac, k: int, tape: Tape): Run
    decreases |tape|
  {
    if tape == [] then Asking(Exp(x))
    else if tape[0] == 1 then GeoSlowRun(x, k + 1, tape[1..])
    else Returned(k)
  }

  method GeometricExpSlow(x: Frac, tape: Tape) returns (r: Run)
    ensures r == GeoSlowRun(x, 0, tape)
  {
    var k, i := 0, 0;
    while true
      invariant 0 <= i <= |tape|
      invariant GeoSlowRun(x, 0, tape) == GeoSlowRun(x, k, tape[i..])
      decreases |tape| - i
    {
      if i == |tape| { return Asking(Exp(x)); }
      var b := tape[i];
      assert tape[i..][1..] == tape[i + 1..];
      i := i + 1;
      if b == 1 {
        k := k + 1;
      } else {
        return Returned(k);
      }
    }
  }

  /** `_geometricExpFast`: rejection-sample u below t, then add t times a geometric. */
  function GeoFastRun(x: Frac, tape: Tape): Run
    requires x.num >= 0
    decreases |tape|
  {
    if x.num == 0 then Returned(0)
    else if |tape| == 0 then Asking(Uniform(x.den))
    else if |tape| == 1 then Asking(Exp(Fr(tape[0], x.den)))
    else if tape[1] != 1 then GeoFastRun(x, tape[2..])
    else if |tape| == 2 then Asking(GeoSlow(Fr(1, 1)))
    else Returned(TruncDiv(tape[2] * x.den + tape[0], x.num))
  }

  method GeometricExpFast(x: Frac, tape: Tape) returns (r: Run)
    requires x.num >= 0
    ensures r == GeoFastRun(x, tape)
  {
    if x.num == 0 { return Returned(0); }
    var t := x.den;
    var u, i := 0, 0;
    while true
      invariant 0 <= i <= |tape|
      invariant GeoFastRun(x, tape) == GeoFastRun(x, tape[i..])
      decreases |tape| - i
    {
      if i == |tape| { return Asking(Uniform(t)); }
      u := tape[i];
      if i + 1 == |tape| { return Asking(Exp(Fr(u, t))); }
      var b := tape[i + 1];
      if b == 1 { break; }
      assert tape[i..][2..] == tape[i + 2..];
      i := i + 2;
    }
    if i + 2 == |tape| { return Asking(GeoSlow(Fr(1, 1))); }
    var v := tape[i + 2];
    var value := v * t + u;
    r := Returned(TruncDiv(value, x.num));
  }

  /** `_sampleDLaplace`: a fair sign and a geometric magnitude, rejecting negative zero. */
  function LaplaceRun(x: Frac, tape: Tape): Run
    decreases |tape|
  {
    if |tape| == 0 then Asking(Uniform(Fr(1, 2).den))
    else if |tape| == 1 then Asking(GeoFast(x))
    else
      var sign := if tape[0] < Fr(1, 2).num then 1 else 0;
      if sign == 1 && tape[1] == 0 then LaplaceRun(x, tape[2..])
      else Returned(tape[1] * (1 - 2 * sign))
  }

  method SampleDLaplace(scaleNum: int, scaleDen: int, tape: Tape) returns (r: Run)
    ensures r == LaplaceRun(Fr(scaleDen, scaleNum), tape)
  {
    var invScale := Fr(scaleDen, scaleNum);
    var i := 0;
    while true
      invariant 0 <= i <= |tape|
      invariant LaplaceRun(invScale, tape) == LaplaceRun(invScale, tape[i..])
      decreases |tape| - i
    {
      if i == |tape| { return Asking(Uniform(Fr(1, 2).den)); }
      var sign := if tape[i] < Fr(1, 2).num then 1 else 0;
      if i + 1 == |tape| { return Asking(GeoFast(invScale)); }
      var magnitude := tape[i + 1];
      assert tape[i..][2..] == tape[i + 2..];
      i := i + 2;
      if sign == 1 && magnitude == 0 { continue; }
      return Returned(magnitude * (1 - 2 * sign));
    }
  }

  /** The acceptance exponent `_sampleDGauss` computes for a candidate. */
  function Bias(sigma2: Frac, t: int, candidate: int): Frac {
    var twoSigma2 := Fr(2 * sigma2.num, sigma2.den);
    var sigma2OverT := Fr(sigma2.num, sigma2.den * t);
    var diff := FrSub(Fr(Abs(candidate), 1), sigma2OverT);
    var diff2 := Fr(diff.num * diff.num, diff.den * diff.den);
    FrMul(diff2, Fr(twoSigma2.den, twoSigma2.num))
  }

  function GaussRun(sigma2: Frac, t: int, tape: Tape): Run
    decreases |tape|
  {
    if |tape| == 0 then Asking(Laplace(t, 1))
    else if |tape| == 1 then Asking(Exp(Bias(sigma2, t, tape[0])))
    else if tape[1] == 1 then Returned(tape[0])
    else GaussRun(sigma2, t, tape[2..])
  }

  /** `_sampleDGauss`; t is floor(sqrt(sigma2)) + 1, which is unique (`FloorSqrtUnique`). */
  method SampleDGauss(sigma2: Frac, tape: Tape) returns (r: Run, t: int)
    requires sigma2.num >= 0 && sigma2.den > 0
    ensures t >= 1 && IsFloorSqrt(t - 1, sigma2)
    ensures r == GaussRun(sigma2, t, tape)
  {
    var root := FloorSqrt(sigma2);
    t := root + 1;
    var twoSigma2 := Fr(2 * sigma2.num, sigma2.den);
    var sigma2OverT := Fr(sigma2.num, sigma2.den * t);
    var i := 0;
    while true
      invariant 0 <= i <= |tape|
      invariant GaussRun(sigma2, t, tape) == GaussRun(sigma2, t, tape[i..])
      decreases |tape| - i
    {
      if i == |tape| { r := Asking(Laplace(t, 1)); return; }
      var candidate := tape[i];
      var absC := if candidate < 0 then -candidate else candidate;
      var diff := FrSub(Fr(absC, 1), sigma2OverT);
      var diff2 := Fr(diff.num * diff.num, diff.den * diff.den);
      var bias := FrMul(diff2, Fr(twoSigma2.den, twoSigma2.num));
      if i + 1 == |tape| { r := Asking(Exp(bias)); return; }
      if tape[i + 1] == 1 { r := Returned(candidate); return; }
      assert tape[i..][2..] == tape[i + 2..];
      i := i + 2;
    }
  }
}
