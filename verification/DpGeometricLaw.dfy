/**
 The law of the fast geometric sampler of lib/ai-dp.js over all its histories: `DpLaws` judges one
 history of rejected attempts, and here they are summed.
 */
module DpGeometricLaw {
  import opened Arith
  import opened DpFractions
  import opened DpSamplers
  import opened DpLaws

  /** Weight of the attempts after h that return k: v * t + u in the k-th run of x.num integers. */
  ghost function AcceptAfter(E: real -> real, x: Frac, h: Tape, from: nat, count: nat): real
    requires x.num >= 0 && x.den > 0
  {
    if count == 0 then 0.0
    else AcceptAfter(E, x, h, from, count - 1) + TapeWeight(E, GeoFastProc(x), h, Completion(x.den, from + count - 1))
  }

  /** Weight of returning k within tries + 1 attempts, after the history h. */
  ghost function Within(E: real -> real, x: Frac, h: Tape, k: nat, tries: nat): real
    requires x.num >= 0 && x.den > 0
    decreases tries, 1, 0
  {
    PosProduct(k, x.num);
    AcceptAfter(E, x, h, k * x.num, x.num) + if tries == 0 then 0.0 else RejectedFirst(E, x, h, k, tries, x.den)
  }

  /** The part of it whose next attempt is rejected with a draw below n. */
  ghost function RejectedFirst(E: real -> real, x: Frac, h: Tape, k: nat, tries: nat, n: nat): real
    requires x.num >= 0 && x.den > 0 && tries > 0
    decreases tries, 0, n
  {
    if n == 0 then 0.0
    else
      RejectedFirst(E, x, h, k, tries, n - 1)
      + TapeWeight(E, GeoFastProc(x), h, [n - 1, 0]) * Within(E, x, h + [n - 1, 0], k, tries - 1)
  }

  lemma PosProduct(a: nat, b: int)
    requires b >= 0
    ensures a * b >= 0
  {
    MulMono(0, a, b);
  }

  // ---------------------------------------------------------------- one attempt

  /** Weight of drawing u below t and rejecting it. */
  ghost function RejectWeight(E: real -> real, t: int, u: int): real
    requires t > 0
  {
    (1.0 / t as real) * (1.0 - Decay(E, 1.0 / t as real, u))
  }

  lemma RejectedPair(E: real -> real, x: Frac, h: Tape, u: int)
    requires x.num > 0 && x.den > 0 && Rejected(h) && 0 <= u < x.den
    ensures TapeWeight(E, GeoFastProc(x), h, [u, 0]) == RejectWeight(E, x.den, u)
    ensures Rejected(h + [u, 0])
  {
    hide TapeWeight, Weight, Decay;
    GeoFastAsks(x, h, u);
    TwoCalls(E, GeoFastProc(x), h, Uniform(x.den), Exp(Fr(u, x.den)), u, 0);
    DrawWeight(E, x.den, u);
    CoinFails(E, u, x.den);
  }

  lemma CoinFails(E: real -> real, u: int, t: int)
    requires t > 0
    ensures Weight(E, Exp(Fr(u, t)), 0) == 1.0 - Decay(E, 1.0 / t as real, u)
  {
    hide Decay, Fr;
    FrValue(u, t);
    CoinDecay(E, u, t);
  }

  lemma {:induction false} AcceptAfterIs(E: real -> real, x: Frac, h: Tape, from: nat, count: nat)
    requires IsExp(E) && x.num > 0 && x.den > 0 && Rejected(h)
    ensures AcceptAfter(E, x, h, from, count)
         == (1.0 * AttemptScale(E, x.den)) * (Decay(E, 1.0 / x.den as real, from) * DecayTotal(E, 1.0 / x.den as real, count))
    decreases count
  {
    hide TapeWeight, Weight, Decay, AttemptScale, IsExp, Rejected, Completion, GeoFastProc, Fr;
    var step := 1.0 / x.den as real;
    if count != 0 {
      var n := from + (count - 1);
      AcceptAfterIs(E, x, h, from, count - 1);
      AttemptIs(E, x, h, n);
      DecaySum(E, step, from, count - 1);
      ScaleFactors(E, x.den);
      OneMoreBin(1.0, step, 1.0 - E(-1.0), Decay(E, step, from), DecayTotal(E, step, count - 1),
                 Decay(E, step, count - 1), Decay(E, step, n), AttemptScale(E, x.den));
    }
  }

  lemma AttemptIs(E: real -> real, x: Frac, h: Tape, n: nat)
    requires IsExp(E) && x.num > 0 && x.den > 0 && Rejected(h)
    ensures TapeWeight(E, GeoFastProc(x), h, Completion(x.den, n))
         == (1.0 / x.den as real) * ((1.0 - E(-1.0)) * Decay(E, 1.0 / x.den as real, n))
  {
    hide TapeWeight, Weight, Decay, IsExp;
    var t := x.den;
    GeoFastAsks(x, h, n % t);
    ThreeCalls(E, GeoFastProc(x), h, Uniform(t), Exp(Fr(n % t, t)), GeoSlow(Fr(1, 1)), n % t, 1, n / t);
    AttemptWeight(E, t, n);
  }

  // ---------------------------------------------------------------- sums

  /** Weight of rejecting one attempt with a draw below n. */
  ghost function RejectTotal(E: real -> real, t: int, n: nat): real
    requires t > 0
  {
    if n == 0 then 0.0 else RejectTotal(E, t, n - 1) + RejectWeight(E, t, n - 1)
  }

  lemma {:induction false} RejectTotalIs(E: real -> real, t: int, n: nat)
    requires t > 0
    ensures RejectTotal(E, t, n) == (1.0 / t as real) * (n as real - DecayTotal(E, 1.0 / t as real, n))
  {
    hide Decay;
    if n > 0 {
      RejectTotalIs(E, t, n - 1);
      var a, d, y := 1.0 / t as real, DecayTotal(E, 1.0 / t as real, n - 1), Decay(E, 1.0 / t as real, n - 1);
      AddReject(a, (n - 1) as real, d, y);
    }
  }

  lemma AddReject(a: real, n: real, d: real, y: real)
    ensures a * (n - d) + a * (1.0 - y) == a * ((n + 1.0) - (d + y))
  {
  }

  /** 1 + r + ... + r^m */
  ghost function Powers(r: real, m: nat): real {
    if m == 0 then 1.0 else 1.0 + r * Powers(r, m - 1)
  }

  ghost function Power(r: real, m: nat): real {
    if m == 0 then 1.0 else r * Power(r, m - 1)
  }

  lemma {:induction false} PowersSum(r: real, m: nat)
    ensures (1.0 - r) * Powers(r, m) == 1.0 - Power(r, m + 1)
  {
    if m == 0 {
      assert Power(r, 1) == r * Power(r, 0);
    } else {
      PowersSum(r, m - 1);
      var p := Powers(r, m - 1);
      assert (1.0 - r) * (1.0 + r * p) == (1.0 - r) + r * ((1.0 - r) * p);
      assert Power(r, m + 1) == r * Power(r, m);
    }
  }

  /** (1 + q + ... + q^(n - 1)) (1 - q) = 1 - q^n for q = exp(-v) */
  lemma {:induction false} DecayTotalSum(E: real -> real, v: real, n: nat)
    requires IsExp(E)
    ensures DecayTotal(E, v, n) * (1.0 - Decay(E, v, 1)) == 1.0 - Decay(E, v, n)
  {
    hide Decay;
    if n == 0 {
      DecayZero(E, v);
    } else {
      DecayTotalSum(E, v, n - 1);
      DecaySum(E, v, n - 1, 1);
      var d, y, q := DecayTotal(E, v, n - 1), Decay(E, v, n - 1), Decay(E, v, 1);
      assert (d + y) * (1.0 - q) == d * (1.0 - q) + (y - y * q);
    }
  }

  // ---------------------------------------------------------------- the law

  /** What one attempt returns does not depend on the history, so the attempts add up. */
  lemma {:induction false} WithinIs(E: real -> real, x: Frac, h: Tape, k: nat, tries: nat, bin: real)
    requires IsExp(E) && x.num > 0 && x.den > 0 && Rejected(h) && bin == AcceptAfter(E, x, [], k * x.num, x.num)
    ensures Within(E, x, h, k, tries) == bin * Powers(RejectTotal(E, x.den, x.den), tries)
    decreases tries, 1, 0
  {
    hide AcceptAfter, IsExp, Rejected, RejectTotal;
    PosProduct(k, x.num);
    SameBin(E, x, h, k * x.num);
    if tries > 0 {
      var r := RejectTotal(E, x.den, x.den);
      RejectedFirstIs(E, x, h, k, tries, bin, x.den);
      var p := Powers(r, tries - 1);
      assert Powers(r, tries) == 1.0 + r * p;
      assert bin + (bin * p) * r == bin * (1.0 + r * p);
    } else {
      assert Powers(RejectTotal(E, x.den, x.den), 0) == 1.0;
    }
  }

  lemma SameBin(E: real -> real, x: Frac, h: Tape, from: nat)
    requires IsExp(E) && x.num > 0 && x.den > 0 && Rejected(h)
    ensures AcceptAfter(E, x, h, from, x.num) == AcceptAfter(E, x, [], from, x.num)
  {
    hide AcceptAfter, IsExp;
    AcceptAfterIs(E, x, h, from, x.num);
    AcceptAfterIs(E, x, [], from, x.num);
  }

  lemma {:induction false} RejectedFirstIs(E: real -> real, x: Frac, h: Tape, k: nat, tries: nat, bin: real, n: nat)
    requires IsExp(E) && x.num > 0 && x.den > 0 && Rejected(h) && bin == AcceptAfter(E, x, [], k * x.num, x.num)
    requires tries > 0 && n <= x.den
    ensures RejectedFirst(E, x, h, k, tries, n) == (bin * Powers(RejectTotal(E, x.den, x.den), tries - 1)) * RejectTotal(E, x.den, n)
    decreases tries, 0, n
  {
    hide AcceptAfter, IsExp, Rejected, TapeWeight, RejectWeight, Within, Powers;
    if n > 0 {
      RejectedFirstIs(E, x, h, k, tries, bin, n - 1);
      RejectedPair(E, x, h, n - 1);
      WithinIs(E, x, h + [n - 1, 0], k, tries - 1, bin);
      var all := bin * Powers(RejectTotal(E, x.den, x.den), tries - 1);
      assert RejectTotal(E, x.den, n) == RejectTotal(E, x.den, n - 1) + RejectWeight(E, x.den, n - 1);
      assert all * RejectTotal(E, x.den, n - 1) + RejectWeight(E, x.den, n - 1) * all == all * RejectTotal(E, x.den, n);
    }
  }

  /** The fast sampler has the law of the slow one: within tries + 1 attempts it returns k with weight
      (1 - exp(-x)) exp(-k x), times one minus the weight of rejecting them all. */
  lemma GeoFastNormalised(E: real -> real, x: Frac, k: nat, tries: nat)
    requires IsExp(E) && x.num > 0 && x.den > 0
    ensures Within(E, x, [], k, tries) == Geometric(E, x, k) * (1.0 - Power(RejectTotal(E, x.den, x.den), tries + 1))
  {
    hide Within, AcceptAfter, RejectTotal, Powers, Power, Decay, DecayTotal, IsExp, AttemptScale;
    PosProduct(k, x.num);
    var bin, r := AcceptAfter(E, x, [], k * x.num, x.num), RejectTotal(E, x.den, x.den);
    WithinIs(E, x, [], k, tries, bin);
    PowersSum(r, tries);
    BinIs(E, x, k);
    var g, p := Geometric(E, x, k), Powers(r, tries);
    assert (g * (1.0 - r)) * p == g * ((1.0 - r) * p);
  }

  /** One attempt returns k with weight (1 - exp(-x)) exp(-k x), times that of not being rejected. */
  lemma BinIs(E: real -> real, x: Frac, k: nat)
    requires IsExp(E) && x.num > 0 && x.den > 0
    ensures k * x.num >= 0
    ensures AcceptAfter(E, x, [], k * x.num, x.num) == Geometric(E, x, k) * (1.0 - RejectTotal(E, x.den, x.den))
  {
    hide AcceptAfter, RejectTotal, Decay, DecayTotal, IsExp, AttemptScale, ExpOf;
    PosProduct(k, x.num);
    var a := 1.0 / x.den as real;
    AcceptAfterIs(E, x, [], k * x.num, x.num);
    BinStart(E, x, k);
    BinStart(E, x, 1);
    RejectTotalIs(E, x.den, x.den);
    DecayTotalSum(E, a, x.num);
    DecayTotalSum(E, a, x.den);
    ScaleFactors(E, x.den);
    Whole(E, x);
    BinAlgebra(a, x.den as real, 1.0 - E(-1.0), 1.0 - E(-Val(x)), Decay(E, Val(x), k), DecayTotal(E, a, x.num), DecayTotal(E, a, x.den),
               1.0 - Decay(E, a, 1));
  }

  lemma Whole(E: real -> real, x: Frac)
    requires x.num > 0 && x.den > 0
    ensures Decay(E, 1.0 / x.den as real, x.den) == E(-1.0) && Decay(E, Val(x), 1) == E(-Val(x))
  {
    var t := x.den as real;
    assert t * (1.0 / t) == 1.0;
    DecayIs(E, 1.0 / t, x.den, 1.0);
    assert -(1.0) == -1.0;
    assert 1 as real * Val(x) == Val(x);
  }

  lemma BinAlgebra(a: real, t: real, one: real, rest: real, start: real, bins: real, all: real, first: real)
    requires a * t == 1.0 && bins * first == rest && all * first == one
    ensures (1.0 * (a * one)) * (start * bins) == (rest * start) * (1.0 - a * (t - all))
  {
    assert 1.0 - a * (t - all) == a * all;
    assert one * bins == rest * all by { assert (all * first) * bins == (bins * first) * all; }
    assert (a * one) * (start * bins) == (a * start) * (one * bins);
    assert (rest * start) * (a * all) == (a * start) * (rest * all);
  }
}
