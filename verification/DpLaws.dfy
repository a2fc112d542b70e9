/**
 Laws of the samplers built on Bernoulli(exp(-x)) (lib/ai-dp.js). `exp` enters only through
 E(0) = 1 and E(a + b) = E(a) * E(b). A rejection loop is judged after an arbitrary history
 of rejected attempts: the weight of each outcome is the weight of that history times a
 factor that the history does not influence.
 */
module DpLaws {
  import opened Arith
  import opened DpFractions
  import opened DpSamplers

  ghost predicate ExpAdd(E: real -> real, a: real, b: real) {
    E(a + b) == E(a) * E(b)
  }

  ghost predicate IsExp(E: real -> real) {
    E(0.0) == 1.0 && forall a: real, b: real :: ExpAdd(E, a, b)
  }

  // ---------------------------------------------------------------- weights

  /** Bernoulli(exp(-x)) */
  ghost function Coin(E: real -> real, x: Frac, o: int): real {
    if x.den == 0 then 0.0
    else if o == 1 then E(-Val(x))
    else if o == 0 then 1.0 - E(-Val(x))
    else 0.0
  }

  /** Geometric with ratio exp(-x) */
  ghost function Geometric(E: real -> real, x: Frac, o: int): real {
    if x.den == 0 || o < 0 then 0.0 else GeoLaw(E, Val(x), o)
  }

  ghost function GeoLaw(E: real -> real, v: real, o: int): real {
    (1.0 - E(-v)) * Decay(E, v, o)
  }

  /** exp(-o v) */
  ghost function Decay(E: real -> real, v: real, o: int): real {
    ExpOf(E, o as real * v)
  }

  /** exp(-y) */
  ghost function ExpOf(E: real -> real, y: real): real {
    E(-y)
  }

  /** Weight of one outcome of one call. For Laplace the normalising constant, which does not
      depend on the outcome, is left out. */
  ghost function Weight(E: real -> real, q: Query, o: int): real {
    match q
    case Uniform(m) => if 0 <= o < m then 1.0 / m as real else 0.0
    case Exp1(x) => Coin(E, x, o)
    case Exp(x) => Coin(E, x, o)
    case GeoSlow(x) => Geometric(E, x, o)
    case GeoFast(x) => Geometric(E, x, o)
    case Laplace(n, d) => if n == 0 then 0.0 else Decay(E, Val(Frac(d, n)), Abs(o))
  }

  /** Weight of the outcomes `rest` that follow `prefix`; zero once the process has returned. */
  ghost function TapeWeight(E: real -> real, proc: Tape -> Run, prefix: Tape, rest: Tape): real
    decreases |rest|
  {
    if rest == [] then 1.0
    else
      match proc(prefix)
      case Returned(_) => 0.0
      case Asking(q) => Weight(E, q, rest[0]) * TapeWeight(E, proc, prefix + [rest[0]], rest[1..])
  }

  lemma {:induction false} TapeWeightSplit(E: real -> real, proc: Tape -> Run, prefix: Tape, a: Tape, b: Tape)
    ensures TapeWeight(E, proc, prefix, a + b) == TapeWeight(E, proc, prefix, a) * TapeWeight(E, proc, prefix + a, b)
    decreases |a|
  {
    hide Weight;
    if a == [] {
      assert a + b == b && prefix + a == prefix;
    } else {
      var p := prefix + [a[0]];
      assert (a + b)[1..] == a[1..] + b;
      assert p + a[1..] == prefix + a;
      TapeWeightSplit(E, proc, p, a[1..], b);
      match proc(prefix)
      case Returned(_) =>
      case Asking(q) =>
        Reassociate(Weight(E, q, a[0]), TapeWeight(E, proc, p, a[1..]), TapeWeight(E, proc, prefix + a, b));
    }
  }

  lemma Reassociate(a: real, b: real, c: real)
    ensures a * (b * c) == (a * b) * c
  {
  }

  /** Two outcomes of a process that asks twice. */
  lemma TwoCalls(E: real -> real, proc: Tape -> Run, prefix: Tape, q: Query, q': Query, a: int, b: int)
    requires proc(prefix) == Asking(q) && proc(prefix + [a]) == Asking(q')
    ensures TapeWeight(E, proc, prefix, [a, b]) == Weight(E, q, a) * Weight(E, q', b)
  {
    hide Weight;
    assert [a, b][1..] == [b];
    assert [b][1..] == [];
    assert TapeWeight(E, proc, prefix + [a] + [b], []) == 1.0;
    assert TapeWeight(E, proc, prefix + [a], [b]) == Weight(E, q', b) * 1.0;
  }

  // ---------------------------------------------------------------- _bernoulliExp

  lemma UnitFraction()
    ensures Fr(1, 1) == Frac(1, 1) && Fr(1, 2) == Frac(1, 2)
    ensures Val(Fr(1, 1)) == 1.0
  {
    assert Gcd(1, 1) == Gcd(1, 0) == 1;
    assert Gcd(1, 2) == Gcd(2, 1) == Gcd(1, 0) == 1;
  }

  lemma FloorOfRatio(a: int, b: int, n: int, d: int)
    requires b > 0 && d > 0 && a * d == n * b
    ensures a / b == n / d
  {
    var q := n / d;
    DivBounds(n, d);
    MulMono(q * d, n, b);
    assert (q * b) * d == (q * d) * b;
    if a < q * b { MulMono(a + 1, q * b, d); MulDistrib(a, 1, d); assert false; }
    MulMono(n + 1, q * d + d, b);
    MulDistrib(n, 1, b);
    assert (q * d + d) * b == (q * b + b) * d;
    if a >= q * b + b { MulMono(q * b + b, a, d); assert false; }
    MulDistrib(q, 1, b);
    DivIsInterval(a, b, q);
  }

  /** One unit peeled off x lowers its floor by one. */
  lemma PeelOne(x: Frac)
    requires x.den > 0
    ensures FrSub(x, Fr(1, 1)).den > 0
    ensures Val(FrSub(x, Fr(1, 1))) == Val(x) - 1.0
    ensures FrSub(x, Fr(1, 1)).num / FrSub(x, Fr(1, 1)).den == x.num / x.den - 1
  {
    UnitFraction();
    FrSubValue(x, Frac(1, 1));
    var y := FrSub(x, Fr(1, 1));
    FrMeaning(x.num - x.den, x.den);
    FloorOfRatio(y.num, y.den, x.num - x.den, x.den);
    DivBounds(x.num, x.den);
    DivIsInterval(x.num - x.den, x.den, x.num / x.den - 1);
    MulDistrib(x.num / x.den, 1, x.den);
  }

  lemma PeelPositive(x: Frac)
    requires x.den > 0 && FrGt(x, Fr(1, 1))
    ensures x.num / x.den >= 1
  {
    UnitFraction();
    DivMono(x.den, x.num, x.den);
    DivIsInterval(x.den, x.den, 1);
  }

  /** Number of units `_bernoulliExp` peels off x before the last call. */
  ghost function Peels(x: Frac): nat
    requires x.den > 0
    decreases if x.num / x.den < 0 then 0 else x.num / x.den
  {
    if FrGt(x, Fr(1, 1)) then
      PeelOne(x);
      PeelPositive(x);
      1 + Peels(FrSub(x, Fr(1, 1)))
    else 0
  }

  ghost function Ones(n: nat): Tape {
    seq(n, _ => 1)
  }

  ghost predicate Coins(tape: Tape) {
    forall i :: 0 <= i < |tape| ==> tape[i] == 0 || tape[i] == 1
  }

  /** The peeling loop stops: `Peels(x) + 1` coins are always enough, and the result is 1 exactly
      when all of them are 1. */
  lemma {:induction false} ExpHalts(x: Frac, tape: Tape)
    requires x.den > 0 && Coins(tape) && |tape| > Peels(x)
    ensures ExpRun(x, tape) == Returned(if tape[..Peels(x) + 1] == Ones(Peels(x) + 1) then 1 else 0)
    decreases Peels(x)
  {
    var n := Peels(x) + 1;
    if FrGt(x, Fr(1, 1)) {
      PeelOne(x);
      if tape[0] == 1 {
        ExpHalts(FrSub(x, Fr(1, 1)), tape[1..]);
        assert tape[1..][..n - 1] == tape[..n][1..];
        assert Ones(n)[1..] == Ones(n - 1);
        if tape[..n][1..] == Ones(n - 1) {
          assert tape[..n] == [tape[0]] + tape[..n][1..];
          assert Ones(n) == [1] + Ones(n - 1);
        }
      } else {
        assert tape[..n][0] != Ones(n)[0];
      }
    } else {
      assert tape[..1] == [tape[0]] && Ones(1) == [1];
    }
  }

  /** After `prefix` the process behaves as `_bernoulliExp` does on y. */
  ghost predicate ContinuesExp(proc: Tape -> Run, prefix: Tape, y: Frac) {
    forall rest: Tape :: proc(prefix + rest) == ExpRun(y, rest)
  }

  lemma ExpPeel(E: real -> real, v: real)
    requires IsExp(E)
    ensures E(-1.0) * E(-(v - 1.0)) == E(-v)
  {
    assert ExpAdd(E, -1.0, -(v - 1.0));
    assert -1.0 + -(v - 1.0) == -v;
  }

  lemma ContinuesAfterPeel(proc: Tape -> Run, prefix: Tape, y: Frac)
    requires ContinuesExp(proc, prefix, y) && FrGt(y, Fr(1, 1))
    ensures ContinuesExp(proc, prefix + [1], FrSub(y, Fr(1, 1)))
  {
    forall rest: Tape
      ensures proc(prefix + [1] + rest) == ExpRun(FrSub(y, Fr(1, 1)), rest)
    {
      assert prefix + [1] + rest == prefix + ([1] + rest);
      assert proc(prefix + ([1] + rest)) == ExpRun(y, [1] + rest);
      assert ([1] + rest)[1..] == rest;
    }
  }

  lemma FirstCall(E: real -> real, proc: Tape -> Run, prefix: Tape, q: Query, tape: Tape)
    requires tape != [] && proc(prefix) == Asking(q)
    ensures TapeWeight(E, proc, prefix, tape) == Weight(E, q, tape[0]) * TapeWeight(E, proc, prefix + [tape[0]], tape[1..])
  {
    hide Weight;
  }

  lemma {:induction false} ExpWeightFrom(E: real -> real, proc: Tape -> Run, prefix: Tape, y: Frac)
    requires IsExp(E) && y.den > 0 && ContinuesExp(proc, prefix, y)
    ensures TapeWeight(E, proc, prefix, Ones(Peels(y) + 1)) == E(-Val(y))
    decreases Peels(y)
  {
    hide Weight, TapeWeight, FrSub;
    var n := Peels(y) + 1;
    var ones := Ones(n);
    assert proc(prefix + []) == ExpRun(y, []);
    assert prefix + [] == prefix;
    assert ones[1..] == Ones(n - 1);
    if FrGt(y, Fr(1, 1)) {
      var z := FrSub(y, Fr(1, 1));
      PeelOne(y);
      ContinuesAfterPeel(proc, prefix, y);
      ExpWeightFrom(E, proc, prefix + [1], z);
      FirstCall(E, proc, prefix, Exp1(Fr(1, 1)), ones);
      UnitWeight(E);
      ExpPeel(E, Val(y));
    } else {
      FirstCall(E, proc, prefix, Exp1(y), ones);
      LastCoin(E, proc, prefix, y);
    }
  }

  lemma UnitWeight(E: real -> real)
    ensures Weight(E, Exp1(Fr(1, 1)), 1) == E(-1.0)
  {
    UnitFraction();
  }

  lemma LastCoin(E: real -> real, proc: Tape -> Run, prefix: Tape, y: Frac)
    requires y.den > 0
    ensures Weight(E, Exp1(y), 1) * TapeWeight(E, proc, prefix + [1], Ones(0)) == E(-Val(y))
  {
  }

  ghost function ExpProc(x: Frac): Tape -> Run {
    (tape: Tape) => ExpRun(x, tape)
  }

  /** `_bernoulliExp` returns 1 with weight exp(-x): the one tape that makes it return 1 is
      `Peels(x) + 1` successes, and that tape weighs E(-x). */
  lemma ExpIsExact(E: real -> real, x: Frac)
    requires IsExp(E) && x.den > 0
    ensures ExpRun(x, Ones(Peels(x) + 1)) == Returned(1)
    ensures TapeWeight(E, ExpProc(x), [], Ones(Peels(x) + 1)) == E(-Val(x))
  {
    var ones := Ones(Peels(x) + 1);
    ExpHalts(x, ones);
    assert ones[..Peels(x) + 1] == ones;
    forall rest: Tape
      ensures ExpProc(x)([] + rest) == ExpRun(x, rest)
    {
      assert [] + rest == rest;
    }
    ExpWeightFrom(E, ExpProc(x), [], x);
  }

  // ---------------------------------------------------------------- _geometricExpSlow

  ghost function GeoSlowProc(x: Frac): Tape -> Run {
    (tape: Tape) => GeoSlowRun(x, 0, tape)
  }

  lemma {:induction false} GeoSlowCounts(x: Frac, k: int, n: nat, rest: Tape)
    ensures GeoSlowRun(x, k, Ones(n) + rest) == GeoSlowRun(x, k + n, rest)
    decreases n
  {
    if n == 0 {
      assert Ones(0) + rest == rest;
    } else {
      assert (Ones(n) + rest)[1..] == Ones(n - 1) + rest;
      GeoSlowCounts(x, k + 1, n - 1, rest);
    }
  }

  lemma {:induction false} GeoSlowWeightFrom(E: real -> real, x: Frac, j: nat, n: nat)
    requires IsExp(E) && x.den > 0
    ensures TapeWeight(E, GeoSlowProc(x), Ones(j), Ones(n) + [0]) == Geometric(E, x, n)
    decreases n
  {
    var proc, tape := GeoSlowProc(x), Ones(n) + [0];
    GeoSlowCounts(x, 0, j, []);
    assert Ones(j) + [] == Ones(j);
    assert proc(Ones(j)) == Asking(Exp(x));
    if n == 0 {
      assert tape == [0] && tape[1..] == [];
      assert TapeWeight(E, proc, Ones(j) + [0], []) == 1.0;
      DecayZero(E, Val(x));
    } else {
      assert tape[1..] == Ones(n - 1) + [0];
      assert Ones(j) + [1] == Ones(j + 1);
      GeoSlowWeightFrom(E, x, j + 1, n - 1);
      GeometricStep(E, x, n);
    }
  }

  lemma GeometricStep(E: real -> real, x: Frac, n: nat)
    requires IsExp(E) && x.den > 0 && n >= 1
    ensures E(-Val(x)) * Geometric(E, x, n - 1) == Geometric(E, x, n)
  {
    GeoLawStep(E, Val(x), n);
  }

  lemma GeoLawStep(E: real -> real, v: real, n: int)
    requires IsExp(E)
    ensures E(-v) * GeoLaw(E, v, n - 1) == GeoLaw(E, v, n)
  {
    DecayAdd(E, v, n - 1);
    SwapFactors(E(-v), 1.0 - E(-v), Decay(E, v, n - 1), Decay(E, v, n));
  }

  lemma DecayAdd(E: real -> real, v: real, n: int)
    requires IsExp(E)
    ensures E(-v) * Decay(E, v, n) == Decay(E, v, n + 1)
  {
    var w := n as real * v;
    assert (n + 1) as real * v == w + v;
    assert ExpAdd(E, -v, -w);
    assert -v + -w == -((n + 1) as real * v);
  }

  lemma DecayZero(E: real -> real, v: real)
    requires IsExp(E)
    ensures Decay(E, v, 0) == 1.0
  {
    assert -(0 as real * v) == 0.0;
  }

  lemma SwapFactors(a: real, b: real, c: real, d: real)
    requires a * c == d
    ensures a * (b * c) == b * d
  {
    assert a * (b * c) == b * (a * c);
  }

  /** `_geometricExpSlow` is exact: k successes and a failure, and nothing shorter, returns k; the
      tape weighs (1 - exp(-x)) * exp(-k x). */
  lemma GeoSlowIsExact(E: real -> real, x: Frac, k: nat)
    requires IsExp(E) && x.den > 0
    ensures GeoSlowRun(x, 0, Ones(k) + [0]) == Returned(k)
    ensures forall j: nat :: j <= k ==> GeoSlowRun(x, 0, Ones(j)) == Asking(Exp(x))
    ensures TapeWeight(E, GeoSlowProc(x), [], Ones(k) + [0]) == Geometric(E, x, k)
  {
    GeoSlowCounts(x, 0, k, [0]);
    forall j: nat | j <= k
      ensures GeoSlowRun(x, 0, Ones(j)) == Asking(Exp(x))
    {
      GeoSlowCounts(x, 0, j, []);
      assert Ones(j) + [] == Ones(j);
    }
    assert Ones(0) == [];
    GeoSlowWeightFrom(E, x, 0, k);
  }

  // ---------------------------------------------------------------- _geometricExpFast

  ghost function GeoFastProc(x: Frac): Tape -> Run
    requires x.num >= 0
  {
    (tape: Tape) => GeoFastRun(x, tape)
  }

  /** Attempts that were rejected: pairs whose second outcome is not 1. */
  ghost predicate Rejected(h: Tape) {
    |h| % 2 == 0 && forall j :: 0 <= j < |h| && j % 2 == 1 ==> h[j] != 1
  }

  lemma {:induction false} GeoFastSkips(x: Frac, h: Tape, rest: Tape)
    requires x.num > 0 && Rejected(h)
    ensures GeoFastRun(x, h + rest) == GeoFastRun(x, rest)
    decreases |h|
  {
    if h == [] {
      assert h + rest == rest;
    } else {
      assert (h + rest)[2..] == h[2..] + rest;
      GeoFastSkips(x, h[2..], rest);
    }
  }

  /** The n-th accepted attempt: u = n mod t, accepted, then v = n div t. */
  ghost function Completion(t: int, n: int): Tape
    requires t > 0
  {
    [n % t, 1, n / t]
  }

  /** The accepted attempts (u, v) with u < t correspond one to one to the numbers v * t + u. */
  lemma PairIndex(t: int, u: int, v: int, n: int)
    requires t > 0
    ensures 0 <= u < t && n == v * t + u <==> Completion(t, n) == [u, 1, v]
  {
    if 0 <= u < t && n == v * t + u { DivModUnique(n, t, v, u); }
    DivBounds(n, t);
    assert Completion(t, n) == [u, 1, v] ==> Completion(t, n)[0] == u && Completion(t, n)[2] == v;
  }

  lemma DecaySum(E: real -> real, v: real, a: int, b: int)
    requires IsExp(E)
    ensures Decay(E, v, a + b) == Decay(E, v, a) * Decay(E, v, b)
  {
    var p, q := a as real * v, b as real * v;
    assert (a + b) as real * v == p + q;
    assert ExpAdd(E, -p, -q);
    assert -p + -q == -((a + b) as real * v);
  }

  lemma DecayScale(E: real -> real, v: real, a: int, b: int, w: real)
    requires w == b as real * v
    ensures Decay(E, v, a * b) == Decay(E, w, a)
  {
    hide Decay;
    var y := a as real * w;
    DecayIs(E, w, a, y);
    ScaledProduct(a, b, v, w);
    DecayIs(E, v, a * b, y);
  }

  lemma DecayIs(E: real -> real, v: real, o: int, y: real)
    requires y == o as real * v
    ensures Decay(E, v, o) == ExpOf(E, y)
  {
  }

  lemma ScaledProduct(a: int, b: int, v: real, w: real)
    requires w == b as real * v
    ensures a as real * w == (a * b) as real * v
  {
    var x, y := a as real, b as real;
    assert (a * b) as real == x * y by { MulReal(a, b); }
    assert (x * y) * v == x * (y * v);
  }

  lemma ThreeCalls(E: real -> real, proc: Tape -> Run, p: Tape, q0: Query, q1: Query, q2: Query, a: int, b: int, c: int)
    requires proc(p) == Asking(q0) && proc(p + [a]) == Asking(q1) && proc(p + [a, b]) == Asking(q2)
    ensures TapeWeight(E, proc, p, [a, b, c]) == Weight(E, q0, a) * (Weight(E, q1, b) * Weight(E, q2, c))
  {
    hide Weight;
    assert p + [a] + [b] == p + [a, b];
    TwoCalls(E, proc, p + [a], q1, q2, b, c);
    assert [a, b, c][1..] == [b, c];
    FirstCall(E, proc, p, q0, [a, b, c]);
  }

  lemma DrawWeight(E: real -> real, t: int, u: int)
    requires 0 <= u < t
    ensures Weight(E, Uniform(t), u) == 1.0 / t as real
  {
  }

  lemma SlowWeight(E: real -> real, v: nat)
    ensures Weight(E, GeoSlow(Fr(1, 1)), v) == (1.0 - E(-1.0)) * Decay(E, 1.0, v)
  {
    hide Decay;
    UnitFraction();
  }

  /** The three calls of an accepted attempt decay in n = v * t + u. */
  lemma AttemptWeight(E: real -> real, t: int, n: nat)
    requires IsExp(E) && t > 0
    ensures Weight(E, Uniform(t), n % t) * (Weight(E, Exp(Fr(n % t, t)), 1) * Weight(E, GeoSlow(Fr(1, 1)), n / t))
         == (1.0 / t as real) * ((1.0 - E(-1.0)) * Decay(E, 1.0 / t as real, n))
  {
    hide Decay, Weight, IsExp, Fr;
    var u, v, step := n % t, n / t, 1.0 / t as real;
    assert 0 <= u < t;
    assert Weight(E, Uniform(t), u) == step by { DrawWeight(E, t, u); }
    assert Weight(E, Exp(Fr(u, t)), 1) == Decay(E, step, u) by { CoinDecay(E, u, t); }
    assert Weight(E, GeoSlow(Fr(1, 1)), v) == (1.0 - E(-1.0)) * Decay(E, 1.0, v) by { SlowWeight(E, v); }
    assert Decay(E, 1.0, v) == Decay(E, step, v * t) by { DecayScale(E, step, v, t, 1.0); }
    DecaySum(E, step, u, v * t);
    assert u + v * t == n by { DivBounds(n, t); }
    SwapFactors(Decay(E, step, u), 1.0 - E(-1.0), Decay(E, step, v * t), Decay(E, step, n));
  }

  lemma CoinDecay(E: real -> real, u: int, t: int)
    requires t > 0
    ensures Weight(E, Exp(Fr(u, t)), 1) == Decay(E, 1.0 / t as real, u)
  {
    hide Decay, Val;
    FrValue(u, t);
    DivAsProduct(u as real, t as real);
    DecayIs(E, 1.0 / t as real, u, Val(Fr(u, t)));
  }

  lemma DivAsProduct(a: real, b: real)
    requires b > 0.0
    ensures a / b == a * (1.0 / b)
  {
  }

  lemma GeoFastAsks(x: Frac, h: Tape, u: int)
    requires x.num > 0 && x.den > 0 && Rejected(h)
    ensures GeoFastProc(x)(h) == Asking(Uniform(x.den))
    ensures GeoFastProc(x)(h + [u]) == Asking(Exp(Fr(u, x.den)))
    ensures GeoFastProc(x)(h + [u, 1]) == Asking(GeoSlow(Fr(1, 1)))
  {
    GeoFastSkips(x, h, []);
    GeoFastSkips(x, h, [u]);
    GeoFastSkips(x, h, [u, 1]);
    assert h + [] == h;
  }

  /** Weight of a whole run: the rejected history h, then the n-th accepted attempt. */
  lemma GeoFastRunWeight(E: real -> real, x: Frac, h: Tape, n: nat)
    requires IsExp(E) && x.num > 0 && x.den > 0 && Rejected(h)
    ensures TapeWeight(E, GeoFastProc(x), [], h + Completion(x.den, n))
         == TapeWeight(E, GeoFastProc(x), [], h) * ((1.0 / x.den as real) * ((1.0 - E(-1.0)) * Decay(E, 1.0 / x.den as real, n)))
  {
    hide Weight, TapeWeight, Decay;
    var proc, t := GeoFastProc(x), x.den;
    TapeWeightSplit(E, proc, [], h, Completion(t, n));
    assert [] + h == h;
    GeoFastAsks(x, h, n % t);
    ThreeCalls(E, proc, h, Uniform(t), Exp(Fr(n % t, t)), GeoSlow(Fr(1, 1)), n % t, 1, n / t);
    AttemptWeight(E, t, n);
  }

  /** Total weight of the runs h + Completion(n) for n = from .. from + count - 1. */
  ghost function BinWeight(E: real -> real, x: Frac, h: Tape, from: nat, count: nat): real
    requires x.num >= 0 && x.den > 0
  {
    if count == 0 then 0.0
    else BinWeight(E, x, h, from, count - 1) + TapeWeight(E, GeoFastProc(x), [], h + Completion(x.den, from + count - 1))
  }

  /** exp(0) + exp(-v) + ... + exp(-(n - 1) v) */
  ghost function DecayTotal(E: real -> real, v: real, n: nat): real {
    if n == 0 then 0.0 else DecayTotal(E, v, n - 1) + Decay(E, v, n - 1)
  }

  /** Weight of an accepted attempt at n = 0. */
  ghost function AttemptScale(E: real -> real, t: int): real
    requires t > 0
  {
    (1.0 / t as real) * (1.0 - E(-1.0))
  }

  lemma {:induction false} BinWeightSplits(E: real -> real, x: Frac, h: Tape, from: nat, count: nat)
    requires IsExp(E) && x.num > 0 && x.den > 0 && Rejected(h)
    ensures BinWeight(E, x, h, from, count)
         == (TapeWeight(E, GeoFastProc(x), [], h) * AttemptScale(E, x.den)) *
            (Decay(E, 1.0 / x.den as real, from) * DecayTotal(E, 1.0 / x.den as real, count))
    decreases count
  {
    hide TapeWeight, Decay, AttemptScale, IsExp, Rejected, Completion, GeoFastProc;
    var step := 1.0 / x.den as real;
    if count != 0 {
      var n := from + (count - 1);
      BinWeightSplits(E, x, h, from, count - 1);
      GeoFastRunWeight(E, x, h, n);
      DecaySum(E, step, from, count - 1);
      OneMoreBin(TapeWeight(E, GeoFastProc(x), [], h), 1.0 / x.den as real, 1.0 - E(-1.0), Decay(E, step, from), DecayTotal(E, step, count - 1),
                 Decay(E, step, count - 1), Decay(E, step, n), AttemptScale(E, x.den)) by { ScaleFactors(E, x.den); }
    }
  }

  lemma ScaleFactors(E: real -> real, t: int)
    requires t > 0
    ensures AttemptScale(E, t) == (1.0 / t as real) * (1.0 - E(-1.0))
  {
  }

  lemma OneMoreBin(w: real, a: real, b: real, start: real, total: real, next: real, both: real, scale: real)
    requires both == start * next && scale == a * b
    ensures (w * scale) * (start * total) + w * (a * (b * both)) == (w * scale) * (start * (total + next))
  {
    assert w * (a * (b * both)) == (w * (a * b)) * (start * next);
    assert (w * scale) * (start * total) + (w * scale) * (start * next) == (w * scale) * (start * total + start * next);
  }

  /** After any history of rejected attempts, an accepted attempt (u, v) with u < t returns k
      exactly when v * t + u lies in the k-th run of x.num consecutive integers. */
  lemma GeoFastBins(x: Frac, h: Tape, k: int, u: int, v: int)
    requires x.num > 0 && x.den > 0 && Rejected(h) && 0 <= u < x.den && 0 <= v
    ensures GeoFastRun(x, h + [u, 1, v]) == Returned(k) <==> k * x.num <= v * x.den + u < (k + 1) * x.num
  {
    GeoFastSkips(x, h, [u, 1, v]);
    MulMono(0, v, x.den);
    DivIsInterval(v * x.den + u, x.num, k);
  }

  /** `_geometricExpFast` is exact: after any history h of rejected attempts, the accepted attempts
      of bin k together weigh the same constant times exp(-k x) for every k, which is the law of
      `_geometricExpSlow`. */
  lemma GeoFastIsExact(E: real -> real, x: Frac, h: Tape, k: nat, from: nat)
    requires IsExp(E) && x.num > 0 && x.den > 0 && Rejected(h) && from == k * x.num
    ensures BinWeight(E, x, h, from, x.num)
         == (TapeWeight(E, GeoFastProc(x), [], h) * AttemptScale(E, x.den)) *
            (Decay(E, Val(x), k) * DecayTotal(E, 1.0 / x.den as real, x.num))
  {
    hide TapeWeight, Decay, AttemptScale, DecayTotal;
    BinWeightSplits(E, x, h, from, x.num);
    BinStart(E, x, k);
  }

  lemma BinStart(E: real -> real, x: Frac, k: nat)
    requires x.num > 0 && x.den > 0
    ensures Decay(E, 1.0 / x.den as real, k * x.num) == Decay(E, Val(x), k)
  {
    hide Decay;
    assert Val(x) == x.num as real * (1.0 / x.den as real);
    DecayScale(E, 1.0 / x.den as real, k, x.num, Val(x));
  }

  // ---------------------------------------------------------------- _sampleDLaplace

  ghost function LaplaceProc(x: Frac): Tape -> Run {
    (tape: Tape) => LaplaceRun(x, tape)
  }

  /** Attempts that drew negative zero. */
  ghost predicate NegativeZeros(h: Tape) {
    |h| % 2 == 0 && forall j :: 0 <= j < |h| ==> if j % 2 == 0 then h[j] < 1 else h[j] == 0
  }

  /** The one sign draw and magnitude that give z. */
  ghost function SignAndMagnitude(z: int): Tape {
    if z < 0 then [0, -z] else [1, z]
  }

  lemma {:induction false} LaplaceSkips(x: Frac, h: Tape, rest: Tape)
    requires NegativeZeros(h)
    ensures LaplaceRun(x, h + rest) == LaplaceRun(x, rest)
    decreases |h|
  {
    if h == [] {
      assert h + rest == rest;
    } else {
      UnitFraction();
      assert h[0] < 1 && h[1] == 0;
      assert (h + rest)[2..] == h[2..] + rest;
      LaplaceSkips(x, h[2..], rest);
    }
  }

  /** Every integer is returned by exactly one (sign, magnitude) pair. */
  lemma LaplacePairs(x: Frac, h: Tape, z: int, u: int, g: int)
    requires NegativeZeros(h) && (u == 0 || u == 1) && 0 <= g
    ensures LaplaceRun(x, h + [u, g]) == Returned(z) <==> [u, g] == SignAndMagnitude(z)
  {
    LaplaceSkips(x, h, [u, g]);
    UnitFraction();
    if u == 0 && g == 0 {
      assert [u, g][2..] == [];
      assert LaplaceRun(x, [u, g]) == LaplaceRun(x, []);
    }
    assert SignAndMagnitude(z)[0] == u && SignAndMagnitude(z)[1] == g <==> SignAndMagnitude(z) == [u, g];
  }

  /** `_sampleDLaplace(n, d)` is exact and symmetric: after any history h of negative zeros, z comes
      with the weight of h times a constant times exp(-|z| d / n). */
  lemma LaplaceIsExact(E: real -> real, n: int, d: int, h: Tape, z: int)
    requires IsExp(E) && n > 0 && d > 0 && NegativeZeros(h)
    ensures TapeWeight(E, LaplaceProc(Fr(d, n)), [], h + SignAndMagnitude(z))
         == TapeWeight(E, LaplaceProc(Fr(d, n)), [], h) *
            ((1.0 / 2.0) * (1.0 - E(-Val(Frac(d, n))))) * Weight(E, Laplace(n, d), z)
  {
    hide TapeWeight, Decay;
    var x := Fr(d, n);
    var proc, pair := LaplaceProc(x), SignAndMagnitude(z);
    FrValue(d, n);
    UnitFraction();
    TapeWeightSplit(E, proc, [], h, pair);
    assert [] + h == h;
    LaplaceSkips(x, h, []);
    LaplaceSkips(x, h, [pair[0]]);
    assert h + [] == h;
    TwoCalls(E, proc, h, Uniform(2), GeoFast(x), pair[0], pair[1]);
    LaplaceAlgebra(TapeWeight(E, proc, [], h), 1.0 - E(-Val(x)), Decay(E, Val(x), Abs(z)));
  }

  lemma LaplaceAlgebra(w: real, a: real, b: real)
    ensures w * ((1.0 / 2.0) * (a * b)) == w * ((1.0 / 2.0) * a) * b
  {
  }

  // ---------------------------------------------------------------- _sampleDGauss

  ghost function GaussProc(sigma2: Frac, t: int): Tape -> Run {
    (tape: Tape) => GaussRun(sigma2, t, tape)
  }

  lemma SquareValue(f: Frac)
    requires f.den > 0
    ensures Fr(f.num * f.num, f.den * f.den).den > 0
    ensures Val(Fr(f.num * f.num, f.den * f.den)) == Val(f) * Val(f)
  {
    FrMulValue(f, f);
  }

  lemma InverseValue(f: Frac)
    requires f.num > 0 && f.den > 0
    ensures Fr(f.den, f.num).den > 0 && Val(Fr(f.den, f.num)) == 1.0 / Val(f)
  {
    FrValue(f.den, f.num);
    var n, d := f.num as real, f.den as real;
    InverseRatio(n, d);
  }

  lemma InverseRatio(n: real, d: real)
    requires n > 0.0 && d > 0.0
    ensures n / d > 0.0 && d / n == 1.0 / (n / d)
  {
    var q := n / d;
    assert n == q * d;
    assert (1.0 / q) * n == d by { assert (1.0 / q) * (q * d) == d; }
  }

  lemma PositiveNumerator(f: Frac, v: real)
    requires f.den > 0 && Val(f) == v && v > 0.0
    ensures f.num > 0
  {
  }

  /** The parts of the bias: 2 sigma2 and sigma2 / t. */
  lemma BiasParts(sigma2: Frac, t: int)
    requires sigma2.num > 0 && sigma2.den > 0 && t >= 1
    ensures var a := Fr(2 * sigma2.num, sigma2.den); a.den > 0 && a.num > 0 && Val(a) == 2.0 * Val(sigma2)
    ensures var b := Fr(sigma2.num, sigma2.den * t); b.den > 0 && Val(b) == Val(sigma2) / t as real
    ensures Val(sigma2) > 0.0
  {
    hide Fr;
    var n, d := sigma2.num as real, sigma2.den as real;
    FrValue(2 * sigma2.num, sigma2.den);
    PosMul(sigma2.den, t);
    FrValue(sigma2.num, sigma2.den * t);
    assert (2 * sigma2.num) as real == 2.0 * n;
    assert (2.0 * n) / d == 2.0 * (n / d);
    assert n / d > 0.0;
    PositiveNumerator(Fr(2 * sigma2.num, sigma2.den), 2.0 * Val(sigma2));
    assert (sigma2.den * t) as real == d * t as real by { MulReal(sigma2.den, t); }
    NestedQuotient(n, d, t as real);
  }

  lemma NestedQuotient(a: real, b: real, c: real)
    requires b > 0.0 && c > 0.0
    ensures b * c > 0.0 && a / (b * c) == (a / b) / c
  {
    var q := a / b;
    var r := q / c;
    assert a == q * b && q == r * c;
    assert a == r * (b * c);
  }

  /** The fraction `bias` of `_sampleDGauss` is (|y| - sigma2 / t)^2 / (2 sigma2). */
  lemma BiasValue(sigma2: Frac, t: int, y: int)
    requires sigma2.num > 0 && sigma2.den > 0 && t >= 1
    ensures Bias(sigma2, t, y).den > 0
    ensures Val(sigma2) > 0.0
    ensures var e := Abs(y) as real - Val(sigma2) / t as real;
            Val(Bias(sigma2, t, y)) == (e * e) * (1.0 / (2.0 * Val(sigma2)))
  {
    hide Fr, FrSub, FrMul, Val;
    var a, b := Fr(2 * sigma2.num, sigma2.den), Fr(sigma2.num, sigma2.den * t);
    BiasParts(sigma2, t);
    IntegerFraction(Abs(y));
    FrSubValue(Fr(Abs(y), 1), b);
    var diff := FrSub(Fr(Abs(y), 1), b);
    SquareValue(diff);
    InverseValue(a);
    FrMulValue(Fr(diff.num * diff.num, diff.den * diff.den), Fr(a.den, a.num));
  }

  lemma IntegerFraction(n: int)
    ensures Fr(n, 1).den > 0 && Val(Fr(n, 1)) == n as real
  {
    FrValue(n, 1);
  }

  /** Completing the square: proposal exponent plus acceptance exponent is y^2 / (2 sigma2) plus a
      term without y. */
  lemma CompleteSquare(a: real, s: real, t: real)
    requires s > 0.0 && t > 0.0
    ensures (a - s / t) * (a - s / t) * (1.0 / (2.0 * s)) + a * (1.0 / t)
         == a * a * (1.0 / (2.0 * s)) + (s / t) * (s / t) * (1.0 / (2.0 * s))
  {
    var m, r := s / t, 1.0 / (2.0 * s);
    assert r * (2.0 * s) == 1.0;
    assert s == m * t;
    assert (2.0 * m) * r == 1.0 / t by {
      var q := 1.0 / t;
      assert q * t == 1.0;
      assert ((2.0 * m) * r) * t == (2.0 * (m * t)) * r;
      assert ((2.0 * m) * r - q) * t == 0.0;
    }
    assert (a - m) * (a - m) == a * a - a * (2.0 * m) + m * m;
    assert (a - m) * (a - m) * r == a * a * r - a * ((2.0 * m) * r) + m * m * r;
  }

  /** y^2 / (2 sigma2) */
  ghost function GaussExponent(sigma2: Frac, y: int): real
    requires sigma2.num > 0 && sigma2.den > 0
  {
    var a := Abs(y) as real;
    a * a * (1.0 / (2.0 * Val(sigma2)))
  }

  lemma {:induction false} GaussSkips(sigma2: Frac, t: int, h: Tape, rest: Tape)
    requires Rejected(h)
    ensures GaussRun(sigma2, t, h + rest) == GaussRun(sigma2, t, rest)
    decreases |h|
  {
    if h == [] {
      assert h + rest == rest;
    } else {
      assert (h + rest)[2..] == h[2..] + rest;
      GaussSkips(sigma2, t, h[2..], rest);
    }
  }

  /** sigma2 / (2 t^2): what completing the square leaves over. */
  ghost function GaussShift(sigma2: Frac, t: int): real
    requires sigma2.num > 0 && sigma2.den > 0 && t >= 1
  {
    var m := Val(sigma2) / t as real;
    m * m * (1.0 / (2.0 * Val(sigma2)))
  }

  /** The acceptance exponent and |y| / t add up to y^2 / (2 sigma2) + sigma2 / (2 t^2). */
  lemma BiasCompletesSquare(sigma2: Frac, t: int, y: int)
    requires sigma2.num > 0 && sigma2.den > 0 && t >= 1
    ensures Bias(sigma2, t, y).den > 0
    ensures Val(Bias(sigma2, t, y)) + Abs(y) as real * (1.0 / t as real) == GaussExponent(sigma2, y) + GaussShift(sigma2, t)
  {
    hide Bias, Val;
    BiasValue(sigma2, t, y);
    CompleteSquare(Abs(y) as real, Val(sigma2), t as real);
  }

  lemma ExpOfAdd(E: real -> real, a: real, b: real)
    requires IsExp(E)
    ensures ExpOf(E, a) * ExpOf(E, b) == ExpOf(E, a + b)
  {
    assert ExpAdd(E, -a, -b);
    assert -a + -b == -(a + b);
  }

  /** One accepted candidate: proposal weight times acceptance weight. */
  lemma CandidateWeight(E: real -> real, sigma2: Frac, t: int, y: int)
    requires IsExp(E) && sigma2.num > 0 && sigma2.den > 0 && t >= 1
    ensures Weight(E, Laplace(t, 1), y) * Weight(E, Exp(Bias(sigma2, t, y)), 1)
         == ExpOf(E, GaussShift(sigma2, t)) * ExpOf(E, GaussExponent(sigma2, y))
  {
    hide Bias, Val, Decay, ExpOf, GaussExponent, GaussShift;
    BiasCompletesSquare(sigma2, t, y);
    var bias := Val(Bias(sigma2, t, y));
    var p := Abs(y) as real * (1.0 / t as real);
    assert Weight(E, Laplace(t, 1), y) == ExpOf(E, p) by {
      UnitOver(t);
      DecayIs(E, Val(Frac(1, t)), Abs(y), p);
    }
    assert Weight(E, Exp(Bias(sigma2, t, y)), 1) == ExpOf(E, bias) by { ExpOfIs(E, bias); }
    ExpOfAdd(E, p, bias);
    ExpOfAdd(E, GaussShift(sigma2, t), GaussExponent(sigma2, y));
  }

  lemma ExpOfIs(E: real -> real, y: real)
    ensures ExpOf(E, y) == E(-y)
  {
  }

  lemma UnitOver(t: int)
    requires t >= 1
    ensures Val(Frac(1, t)) == 1.0 / t as real
  {
  }

  /** `_sampleDGauss` is exact: after any history h of rejected candidates, the run that accepts y
      returns y, nothing else does, and it weighs the weight of h times a constant times
      exp(-y^2 / (2 sigma2)). The constant depends neither on y nor on h. */
  lemma GaussIsExact(E: real -> real, sigma2: Frac, t: int, h: Tape, y: int)
    requires IsExp(E) && sigma2.num > 0 && sigma2.den > 0 && t >= 1 && Rejected(h)
    ensures forall c: int :: GaussRun(sigma2, t, h + [c, 1]) == Returned(y) <==> c == y
    ensures TapeWeight(E, GaussProc(sigma2, t), [], h + [y, 1])
         == TapeWeight(E, GaussProc(sigma2, t), [], h) *
            (ExpOf(E, GaussShift(sigma2, t)) * ExpOf(E, GaussExponent(sigma2, y)))
  {
    hide TapeWeight, Weight, Bias, GaussShift, GaussExponent;
    var proc := GaussProc(sigma2, t);
    forall c: int
      ensures GaussRun(sigma2, t, h + [c, 1]) == Returned(y) <==> c == y
    {
      GaussSkips(sigma2, t, h, [c, 1]);
    }
    TapeWeightSplit(E, proc, [], h, [y, 1]);
    assert [] + h == h;
    GaussSkips(sigma2, t, h, []);
    GaussSkips(sigma2, t, h, [y]);
    assert h + [] == h;
    TwoCalls(E, proc, h, Laplace(t, 1), Exp(Bias(sigma2, t, y)), y, 1);
    CandidateWeight(E, sigma2, t, y);
  }
}
