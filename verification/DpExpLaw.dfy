/**
 The finite-horizon law of `_bernoulliExp1` (lib/ai-dp.js), read off its uniform draws.
 */
module DpExpLaw {
  import opened Arith
  import opened DpFractions
  import opened DpSamplers

  /** What a process may have done after some number of draws. */
  datatype Goal = Hit(value: int) | StillRunning

  /** Chance, over all outcomes of the uniform draws a process asks for, that it meets the goal
      after at most n more draws. */
  ghost function Chance(proc: Tape -> Run, prefix: Tape, n: nat, goal: Goal): real
    decreases n, 0
  {
    match proc(prefix)
    case Returned(w) => if goal == Hit(w) then 1.0 else 0.0
    case Asking(q) =>
      if n == 0 || !q.Uniform? || q.m <= 0 then if goal == StillRunning then 1.0 else 0.0
      else ChanceSum(proc, prefix, n, goal, q.m) / q.m as real
  }

  /** Sum of the chances after each of the first m outcomes of the next draw. */
  ghost function ChanceSum(proc: Tape -> Run, prefix: Tape, n: nat, goal: Goal, m: nat): real
    requires n > 0
    decreases n - 1, m + 1
  {
    if m == 0 then 0.0
    else ChanceSum(proc, prefix, n, goal, m - 1) + Chance(proc, prefix + [m - 1], n - 1, goal)
  }

  /** a added m times. */
  ghost function Times(m: nat, a: real): real {
    if m == 0 then 0.0 else Times(m - 1, a) + a
  }

  lemma {:induction false} TimesIsProduct(m: nat, a: real)
    ensures Times(m, a) == m as real * a
  {
    if m != 0 {
      TimesIsProduct(m - 1, a);
      assert m as real * a == (m - 1) as real * a + a;
    }
  }

  lemma {:induction false} SumTwoValued(proc: Tape -> Run, h: Tape, n: nat, goal: Goal, m: nat, c: nat, a: real, b: real)
    requires n > 0
    requires forall u :: 0 <= u < m ==> Chance(proc, h + [u], n - 1, goal) == (if u < c then a else b)
    ensures m <= c ==> ChanceSum(proc, h, n, goal, m) == Times(m, a)
    ensures c <= m ==> ChanceSum(proc, h, n, goal, m) == Times(c, a) + Times(m - c, b)
    decreases m
  {
    if m != 0 {
      SumTwoValued(proc, h, n, goal, m - 1, c, a, b);
    }
  }

  /** a with chance q, otherwise b. */
  ghost function Mix(q: real, a: real, b: real): real {
    q * a + (1.0 - q) * b
  }

  lemma WeightedMean(sum: real, n: real, d: real, a: real, b: real)
    requires d > 0.0 && sum == n * a + (d - n) * b
    ensures sum / d == Mix(n / d, a, b)
  {
    var q := n / d;
    assert n == q * d;
    calc {
      sum;
      (q * d) * a + (d - q * d) * b;
      (q * a) * d + ((1.0 - q) * b) * d;
      Mix(q, a, b) * d;
    }
  }

  // ---------------------------------------------------------------- the rounds of _bernoulliExp1

  ghost function Exp1Proc(x: Frac): Tape -> Run {
    (tape: Tape) => Exp1Run(x, 1, tape)
  }

  /** The fraction round k draws against. */
  ghost function Round(x: Frac, k: int): Frac {
    Fr(x.num, x.den * k)
  }

  /** The prefix on which the first |h| draws all succeeded. */
  ghost predicate Hits(x: Frac, k: int, h: Tape) {
    forall i :: 0 <= i < |h| ==> h[i] < Round(x, k + i).num
  }

  lemma {:induction false} HitsAdvance(x: Frac, k: int, h: Tape, rest: Tape)
    requires Hits(x, k, h)
    ensures Exp1Run(x, k, h + rest) == Exp1Run(x, k + |h|, rest)
    decreases |h|
  {
    if h == [] {
      assert h + rest == rest;
    } else {
      assert (h + rest)[1..] == h[1..] + rest;
      assert h[0] < Round(x, k + 0).num;
      forall i | 0 <= i < |h[1..]|
        ensures h[1..][i] < Round(x, k + 1 + i).num
      {
        assert h[i + 1] < Round(x, k + (i + 1)).num;
      }
      HitsAdvance(x, k + 1, h[1..], rest);
    }
  }

  lemma ProperFraction(a: int, b: int, n: int, d: int)
    requires b > 0 && d > 0 && a * d == n * b && 0 <= n <= d
    ensures 0 <= a <= b
  {
    MulMono(0, n, b);
    MulMono(n, d, b);
    if a < 0 { MulMono(a, -1, d); assert false; }
    if a > b { MulMono(b + 1, a, d); MulDistrib(b, 1, d); assert false; }
  }

  lemma NestedDiv(a: real, b: real, c: real)
    requires b > 0.0 && c > 0.0
    ensures b * c > 0.0 && a / (b * c) == (a / b) / c
  {
    var q := a / b;
    var r := q / c;
    assert a == q * b && q == r * c;
    assert a == r * (b * c);
  }

  /** Round k is a proper fraction. */
  lemma RoundProper(x: Frac, k: int)
    requires x.den > 0 && 0 <= x.num <= x.den && k >= 1
    ensures Round(x, k).den > 0 && 0 <= Round(x, k).num <= Round(x, k).den
  {
    var d := x.den * k;
    MulMono(1, k, x.den);
    assert d >= x.den;
    FrMeaning(x.num, d);
    ProperFraction(Round(x, k).num, Round(x, k).den, x.num, d);
  }

  /** Round k succeeds with chance x / k. */
  lemma RoundValue(x: Frac, k: int)
    requires x.den > 0 && k >= 1
    ensures Round(x, k).den > 0 && Val(Round(x, k)) == Val(x) / k as real
  {
    PosMul(x.den, k);
    FrValue(x.num, x.den * k);
    ScaledValue(x.num, x.den, k);
  }

  lemma ScaledValue(n: int, b: int, k: int)
    requires b > 0 && k > 0
    ensures b * k > 0 && n as real / (b * k) as real == (n as real / b as real) / k as real
  {
    PosMul(b, k);
    MulReal(b, k);
    NestedDiv(n as real, b as real, k as real);
  }

  lemma RoundAsks(x: Frac, h: Tape)
    requires Hits(x, 1, h)
    ensures Exp1Proc(x)(h) == Asking(Uniform(Round(x, |h| + 1).den))
  {
    HitsAdvance(x, 1, h, []);
    assert h + [] == h;
  }

  lemma RoundStops(x: Frac, h: Tape, u: int)
    requires Hits(x, 1, h) && u >= Round(x, |h| + 1).num
    ensures Exp1Proc(x)(h + [u]) == Returned((|h| + 1) % 2)
  {
    HitsAdvance(x, 1, h, [u]);
    assert Exp1Run(x, 1 + |h|, [u]) == Returned((1 + |h|) % 2);
  }

  /** The chance from round k on, as a function of x and k alone. */
  ghost function ChanceFrom(x: real, k: nat, n: nat, goal: Goal): real
    requires k >= 1
    decreases n
  {
    if n == 0 then if goal == StillRunning then 1.0 else 0.0
    else Mix(x / k as real, ChanceFrom(x, k + 1, n - 1, goal), if goal == Hit(k % 2) then 1.0 else 0.0)
  }

  lemma {:induction false} Exp1Chance(x: Frac, h: Tape, n: nat, goal: Goal)
    requires x.den > 0 && 0 <= x.num <= x.den && Hits(x, 1, h)
    ensures Chance(Exp1Proc(x), h, n, goal) == ChanceFrom(Val(x), |h| + 1, n, goal)
    decreases n
  {
    var proc, k := Exp1Proc(x), |h| + 1;
    RoundAsks(x, h);
    RoundProper(x, k);
    if n > 0 {
      var p := Round(x, k);
      var a := ChanceFrom(Val(x), k + 1, n - 1, goal);
      var b := if goal == Hit(k % 2) then 1.0 else 0.0;
      forall u | 0 <= u < p.den
        ensures Chance(proc, h + [u], n - 1, goal) == (if u < p.num then a else b)
      {
        if u < p.num {
          Exp1Chance(x, h + [u], n - 1, goal);
        } else {
          RoundStops(x, h, u);
        }
      }
      SumTwoValued(proc, h, n, goal, p.den, p.num, a, b);
      RoundMean(x, k, ChanceSum(proc, h, n, goal, p.den), a, b);
    }
  }

  lemma RoundMean(x: Frac, k: int, sum: real, a: real, b: real)
    requires x.den > 0 && k >= 1
    requires var p := Round(x, k); p.den > 0 && 0 <= p.num <= p.den && sum == Times(p.num, a) + Times(p.den - p.num, b)
    ensures Round(x, k).den > 0 && sum / Round(x, k).den as real == Mix(Val(x) / k as real, a, b)
  {
    var p := Round(x, k);
    RoundValue(x, k);
    BernoulliMean(p, sum, a, b);
  }

  lemma BernoulliMean(p: Frac, sum: real, a: real, b: real)
    requires p.den > 0 && 0 <= p.num <= p.den && sum == Times(p.num, a) + Times(p.den - p.num, b)
    ensures sum / p.den as real == Mix(Val(p), a, b)
  {
    var n, d := p.num as real, p.den as real;
    assert Times(p.num, a) == n * a by { TimesIsProduct(p.num, a); }
    assert Times(p.den - p.num, b) == (d - n) * b by { TimesIsProduct(p.den - p.num, b); }
    WeightedMean(sum, n, d, a, b);
  }

  // ---------------------------------------------------------------- alternating sums

  /** a(0) - a(1) + a(2) - ... up to the j-th term */
  ghost function Alternating(a: nat -> real, j: nat): real {
    (if j == 0 then 0.0 else Alternating(a, j - 1)) + (if j % 2 == 0 then a(j) else -a(j))
  }

  /** Sum of a(i - 1) - a(i) over the odd i in k..k+n-1 */
  ghost function OddGain(a: nat -> real, k: nat, n: nat): real
    requires k >= 1
    decreases n
  {
    if n == 0 then 0.0
    else (if k % 2 == 1 then a(k - 1) - a(k) else 0.0) + OddGain(a, k + 1, n - 1)
  }

  lemma {:induction false} OddGainExtend(a: nat -> real, k: nat, n: nat)
    requires k >= 1
    ensures OddGain(a, k, n + 1) == OddGain(a, k, n) + (if (k + n) % 2 == 1 then a(k + n - 1) - a(k + n) else 0.0)
    decreases n
  {
    if n > 0 { OddGainExtend(a, k + 1, n - 1); }
  }

  lemma {:induction false} OddGainIsAlternating(a: nat -> real, m: nat)
    ensures OddGain(a, 1, 2 * m + 1) == Alternating(a, 2 * m + 1)
  {
    if m == 0 {
      assert Alternating(a, 1) == Alternating(a, 0) - a(1);
      OddGainExtend(a, 1, 0);
    } else {
      OddGainIsAlternating(a, m - 1);
      OddGainExtend(a, 1, 2 * m - 1);
      OddGainExtend(a, 1, 2 * m);
      assert Alternating(a, 2 * m + 1) == Alternating(a, 2 * m) - a(2 * m + 1);
      assert Alternating(a, 2 * m) == Alternating(a, 2 * m - 1) + a(2 * m);
    }
  }

  // ---------------------------------------------------------------- the law

  /** x^j / j! */
  ghost function Term(x: real, j: nat): real {
    if j == 0 then 1.0 else Term(x, j - 1) * (x / j as real)
  }

  ghost function Terms(x: real): nat -> real {
    (j: nat) => Term(x, j)
  }

  /** Sum of (-x)^i / i! for i = 0..j */
  ghost function Taylor(x: real, j: nat): real {
    Alternating(Terms(x), j)
  }

  /** One round, weighted by the chance t of reaching it; t * q is the chance of passing it. */
  lemma OneRound(t: real, q: real, a: real, b: real, gain: real)
    requires (t * q) * a == gain
    ensures b == 0.0 ==> t * Mix(q, a, b) == gain
    ensures b == 1.0 ==> t * Mix(q, a, b) == gain + (t - t * q)
  {
    assert t * (q * a) == (t * q) * a;
    assert t * ((1.0 - q) * 1.0) == t - t * q;
  }

  lemma TermStep(x: real, k: nat)
    requires k >= 1
    ensures Term(x, k) == Term(x, k - 1) * (x / k as real)
  {
  }

  lemma ChanceStep(x: real, k: nat, n: nat, goal: Goal)
    requires k >= 1 && n > 0
    ensures ChanceFrom(x, k, n, goal)
            == Mix(x / k as real, ChanceFrom(x, k + 1, n - 1, goal), if goal == Hit(k % 2) then 1.0 else 0.0)
  {
  }

  lemma OddGainStep(x: real, k: nat, n: nat)
    requires k >= 1 && n > 0
    ensures OddGain(Terms(x), k, n)
            == (if k % 2 == 1 then Term(x, k - 1) - Term(x, k) else 0.0) + OddGain(Terms(x), k + 1, n - 1)
  {
  }

  lemma NothingDrawn(x: real, k: nat)
    requires k >= 1
    ensures ChanceFrom(x, k, 0, Hit(1)) == 0.0 && ChanceFrom(x, k, 0, StillRunning) == 1.0
    ensures OddGain(Terms(x), k, 0) == 0.0
  {
  }

  lemma {:induction false} WeightedChance(x: real, k: nat, n: nat)
    requires k >= 1
    ensures Term(x, k - 1) * ChanceFrom(x, k, n, Hit(1)) == OddGain(Terms(x), k, n)
    decreases n
  {
    hide Mix, Term, ChanceFrom, OddGain, Terms;
    if n == 0 {
      NothingDrawn(x, k);
    } else {
      TermStep(x, k);
      ChanceStep(x, k, n, Hit(1));
      OddGainStep(x, k, n);
      WeightedChance(x, k + 1, n - 1);
      OneRound(Term(x, k - 1), x / k as real, ChanceFrom(x, k + 1, n - 1, Hit(1)),
               if k % 2 == 1 then 1.0 else 0.0, OddGain(Terms(x), k + 1, n - 1));
    }
  }

  lemma {:induction false} WeightedRunning(x: real, k: nat, n: nat)
    requires k >= 1
    ensures Term(x, k - 1) * ChanceFrom(x, k, n, StillRunning) == Term(x, k - 1 + n)
    decreases n
  {
    hide Mix, Term, ChanceFrom;
    if n == 0 {
      NothingDrawn(x, k);
    } else {
      TermStep(x, k);
      ChanceStep(x, k, n, StillRunning);
      WeightedRunning(x, k + 1, n - 1);
      OneRound(Term(x, k - 1), x / k as real, ChanceFrom(x, k + 1, n - 1, StillRunning), 0.0, Term(x, k - 1 + n));
    }
  }

  /** `_bernoulliExp1` is exact: for every rational x in [0, 1], over all outcomes of its uniform
      draws, it has returned 1 within 2m + 1 draws with chance equal to the Taylor sum of
      exp(-x) up to degree 2m + 1, and it is still running after n draws with chance x^n / n!. */
  lemma Exp1IsExact(x: Frac, m: nat, n: nat)
    requires x.den > 0 && 0 <= x.num <= x.den
    ensures Chance(Exp1Proc(x), [], 2 * m + 1, Hit(1)) == Taylor(Val(x), 2 * m + 1)
    ensures Chance(Exp1Proc(x), [], n, StillRunning) == Term(Val(x), n)
  {
    Exp1Chance(x, [], 2 * m + 1, Hit(1));
    WeightedChance(Val(x), 1, 2 * m + 1);
    OddGainIsAlternating(Terms(Val(x)), m);
    Exp1Chance(x, [], n, StillRunning);
    WeightedRunning(Val(x), 1, n);
  }

  /** Any number e between two consecutive Taylor sums, as exp(-x) is for x in [0, 1], differs from
      the chance of having returned 1 by at most the chance of still running. */
  lemma Exp1Brackets(x: Frac, m: nat, e: real)
    requires x.den > 0 && 0 <= x.num <= x.den
    requires Taylor(Val(x), 2 * m + 1) <= e <= Taylor(Val(x), 2 * m)
    ensures var n := 2 * m + 1;
            var hit := Chance(Exp1Proc(x), [], n, Hit(1));
            hit <= e <= hit + Chance(Exp1Proc(x), [], n, StillRunning)
  {
    Exp1IsExact(x, m, 2 * m + 1);
    assert Taylor(Val(x), 2 * m + 1) == Taylor(Val(x), 2 * m) - Term(Val(x), 2 * m + 1);
  }
}
