/**
 The per-scope privacy budget of lib/ai-dp.js: basic and Renyi accounting. Amounts are real
 numbers. The logarithm and the closed-form charges of the accountant are inputs: a mechanism
 carries one charge per order, and the scope carries log(1/delta).
 */
module DpBudget {

  datatype Kind = Laplace | Gaussian | Unsupported

  datatype Mechanism = Mechanism(kind: Kind, epsilon: real, delta: real, charges: seq<real>)

  datatype Accounting = Basic | Rdp

  /** `RDP_ORDERS` */
  const RDP_ORDERS: seq<real> :=
    [1.25, 1.5, 1.75, 2.0, 2.5, 3.0, 4.0, 5.0, 6.0, 8.0, 12.0, 16.0, 24.0, 32.0, 48.0, 64.0, 128.0, 256.0]

  const ORDERS := 18

  /** log(1/delta) / (a - 1) for every order a. */
  function OffsetsOf(logInv: real): (r: seq<real>)
    ensures |r| == ORDERS && forall i :: 0 <= i < ORDERS ==> RDP_ORDERS[i] > 1.0 && r[i] == logInv / (RDP_ORDERS[i] - 1.0)
  {
    seq(ORDERS, i requires 0 <= i < ORDERS => logInv / (RDP_ORDERS[i] - 1.0))
  }

  /** The options of a scope, with log(1/delta). */
  datatype Config = Config(epsilon: real, delta: real, accounting: Accounting, logInv: real) {
    function Offsets(): (r: seq<real>)
      ensures |r| == ORDERS
    {
      OffsetsOf(logInv)
    }
  }

  datatype Amount = Amount(epsilon: real, delta: real)

  datatype Error = BadMechanism | BadDelta | BudgetExhausted | BadValue

  datatype Release = Granted(cost: Amount, remaining: Amount) | Refused(error: Error)

  /** What a budget remembers between calls. */
  datatype State = State(spent: Amount, rdp: seq<real>)

  const SLACK := 0.000000000001

  /** What `budget` demands of its options. */
  ghost predicate ValidConfig(c: Config) {
    && c.epsilon > 0.0
    && 0.0 <= c.delta < 1.0
    && (c.accounting == Rdp ==> c.delta > 0.0 && c.logInv > 0.0)
  }

  /** What `mechanism` guarantees, with one non-negative charge per order. */
  ghost predicate ValidMechanism(m: Mechanism) {
    && m.epsilon > 0.0
    && 0.0 <= m.delta < 1.0
    && |m.charges| == ORDERS
    && forall i :: 0 <= i < ORDERS ==> m.charges[i] >= 0.0
  }

  // ---------------------------------------------------------------- the accountant

  function AddEach(a: seq<real>, b: seq<real>): (r: seq<real>)
    requires |a| == |b|
    ensures |r| == |a| && forall i :: 0 <= i < |r| ==> r[i] == a[i] + b[i]
  {
    seq(|a|, i requires 0 <= i < |a| => a[i] + b[i])
  }

  function Zeros(n: nat): (r: seq<real>)
    ensures |r| == n && forall i :: 0 <= i < n ==> r[i] == 0.0
  {
    seq(n, _ => 0.0)
  }

  function Least(s: seq<real>): real
    requires |s| >= 1
  {
    if |s| == 1 then s[0]
    else
      var m := Least(s[..|s| - 1]);
      if s[|s| - 1] < m then s[|s| - 1] else m
  }

  ghost predicate IsLeast(m: real, s: seq<real>) {
    m in s && forall i :: 0 <= i < |s| ==> m <= s[i]
  }

  lemma {:induction false} LeastIsLeast(s: seq<real>)
    requires |s| >= 1
    ensures IsLeast(Least(s), s)
  {
    if |s| > 1 {
      LeastIsLeast(s[..|s| - 1]);
    }
  }

  /** The accountant's epsilon: the best order. */
  function EpsilonOf(rdp: seq<real>, offsets: seq<real>): real
    requires |rdp| == |offsets| >= 1
  {
    Least(AddEach(rdp, offsets))
  }

  /** `_rdpToEpsilon` */
  method RdpToEpsilon(rdp: seq<real>, logInv: real) returns (best: real)
    requires |rdp| == ORDERS
    ensures best == EpsilonOf(rdp, OffsetsOf(logInv))
    ensures IsLeast(best, AddEach(rdp, OffsetsOf(logInv)))
  {
    ghost var sums := AddEach(rdp, OffsetsOf(logInv));
    best := rdp[0] + logInv / (RDP_ORDERS[0] - 1.0);
    for i := 1 to ORDERS
      invariant best == Least(sums[..i])
    {
      var a := RDP_ORDERS[i];
      assert a > 1.0 && sums[i] == rdp[i] + logInv / (a - 1.0);
      var e := rdp[i] + logInv / (a - 1.0);
      assert sums[..i + 1][..i] == sums[..i];
      if e < best { best := e; }
    }
    assert sums[..ORDERS] == sums;
    LeastIsLeast(sums);
  }

  /** Charging non-negative amounts cannot lower the accountant's epsilon. */
  lemma EpsilonMonotone(a: seq<real>, b: seq<real>, offsets: seq<real>)
    requires |a| == |b| == |offsets| >= 1
    requires forall i :: 0 <= i < |a| ==> a[i] <= b[i]
    ensures EpsilonOf(a, offsets) <= EpsilonOf(b, offsets)
  {
    LeastIsLeast(AddEach(a, offsets));
    LeastIsLeast(AddEach(b, offsets));
    var i :| 0 <= i < |b| && AddEach(b, offsets)[i] == EpsilonOf(b, offsets);
    assert AddEach(a, offsets)[i] <= AddEach(b, offsets)[i];
  }

  // ---------------------------------------------------------------- one call

  function Max0(x: real): real {
    if x < 0.0 then 0.0 else x
  }

  function Remaining(c: Config, s: State): Amount
    requires |s.rdp| == ORDERS
  {
    if c.accounting == Basic
    then Amount(Max0(c.epsilon - s.spent.epsilon), Max0(c.delta - s.spent.delta))
    else Amount(Max0(c.epsilon - EpsilonOf(s.rdp, c.Offsets())), c.delta)
  }

  function Fresh(): State {
    State(Amount(0.0, 0.0), Zeros(ORDERS))
  }

  /** State after charging m. */
  function Charge(c: Config, s: State, m: Mechanism): State
    requires |s.rdp| == |m.charges|
  {
    if c.accounting == Basic
    then s.(spent := Amount(s.spent.epsilon + m.epsilon, s.spent.delta + m.delta))
    else s.(rdp := AddEach(s.rdp, m.charges))
  }

  /** The charge would pass the scope's total. */
  predicate Exhausts(c: Config, s: State, m: Mechanism)
    requires |s.rdp| == |m.charges| == ORDERS
  {
    if c.accounting == Basic
    then s.spent.epsilon + m.epsilon > c.epsilon + SLACK || s.spent.delta + m.delta > c.delta + SLACK
    else EpsilonOf(AddEach(s.rdp, m.charges), c.Offsets()) > c.epsilon + SLACK
  }

  /** First reason to refuse, in the order the source checks. */
  function Objection(c: Config, s: State, m: Mechanism, finiteValue: bool): (e: seq<Error>)
    requires |s.rdp| == |m.charges| == ORDERS
    ensures |e| <= 1
  {
    if m.kind == Unsupported then [BadMechanism]
    else if m.kind == Gaussian && c.delta <= 0.0 then [BadDelta]
    else if Exhausts(c, s, m) then [BudgetExhausted]
    else if !finiteValue then [BadValue]
    else []
  }

  /** `budget`: the closure's variables are the fields. */
  class Budget {
    const config: Config
    var spentEpsilon: real
    var spentDelta: real
    var rdp: seq<real>

    ghost predicate Valid()
      reads this
    {
      ValidConfig(config) && |rdp| == ORDERS
    }

    function View(): State
      reads this
    {
      State(Amount(spentEpsilon, spentDelta), rdp)
    }

    constructor (c: Config)
      requires ValidConfig(c)
      ensures Valid() && config == c && View() == Fresh()
    {
      config := c;
      spentEpsilon, spentDelta, rdp := 0.0, 0.0, Zeros(ORDERS);
    }

    method RemainingNow() returns (a: Amount)
      requires Valid()
      ensures a == Remaining(config, View())
    {
      if config.accounting == Basic {
        var e, d := config.epsilon - spentEpsilon, config.delta - spentDelta;
        a := Amount(Max0(e), Max0(d));
      } else {
        var best := RdpToEpsilon(rdp, config.logInv);
        a := Amount(Max0(config.epsilon - best), config.delta);
      }
    }

    method Consume(m: Mechanism, finiteValue: bool) returns (r: Release)
      requires Valid() && |m.charges| == ORDERS
      modifies this`spentEpsilon, this`spentDelta, this`rdp
      ensures Valid()
      ensures var s := old(View());
              var objection := Objection(config, s, m, finiteValue);
              if objection != [] then
                r == Refused(objection[0]) && View() == s
              else
                && View() == Charge(config, s, m)
                && r.Granted?
                && r.remaining == Remaining(config, View())
                && r.cost == (if config.accounting == Basic then Amount(m.epsilon, m.delta)
                              else Amount(EpsilonOf(View().rdp, config.Offsets()) - EpsilonOf(s.rdp, config.Offsets()), 0.0))
    {
      if m.kind == Unsupported { return Refused(BadMechanism); }
      if m.kind == Gaussian && config.delta <= 0.0 { return Refused(BadDelta); }
      var cost;
      if config.accounting == Basic {
        if spentEpsilon + m.epsilon > config.epsilon + SLACK || spentDelta + m.delta > config.delta + SLACK {
          return Refused(BudgetExhausted);
        }
        cost := Amount(m.epsilon, m.delta);
      } else {
        var trial := AddEach(rdp, m.charges);
        var trialEps := RdpToEpsilon(trial, config.logInv);
        if trialEps > config.epsilon + SLACK { return Refused(BudgetExhausted); }
        var before := RdpToEpsilon(rdp, config.logInv);
        cost := Amount(trialEps - before, 0.0);
      }
      if !finiteValue { return Refused(BadValue); }
      if config.accounting == Basic {
        spentEpsilon := spentEpsilon + m.epsilon;
        spentDelta := spentDelta + m.delta;
      } else {
        rdp := AddEach(rdp, m.charges);
      }
      var left := RemainingNow();
      r := Granted(cost, left);
    }

    method Reset()
      requires Valid()
      modifies this`spentEpsilon, this`spentDelta, this`rdp
      ensures Valid() && View() == Fresh()
    {
      spentEpsilon := 0.0;
      spentDelta := 0.0;
      rdp := Zeros(ORDERS);
    }
  }

  // ---------------------------------------------------------------- runs

  datatype Call = Consume(m: Mechanism, finiteValue: bool) | Reset

  ghost predicate ValidCall(call: Call) {
    call.Consume? ==> ValidMechanism(call.m)
  }

  ghost predicate ValidState(c: Config, s: State) {
    ValidConfig(c) && |s.rdp| == ORDERS
  }

  ghost predicate Accepts(c: Config, s: State, call: Call)
    requires ValidState(c, s) && ValidCall(call)
  {
    call.Consume? && Objection(c, s, call.m, call.finiteValue) == []
  }

  /** State after one call; `Budget.Consume` and `Budget.Reset` make exactly this step. */
  ghost function After(c: Config, s: State, call: Call): (t: State)
    requires ValidState(c, s) && ValidCall(call)
    ensures ValidState(c, t)
  {
    if call.Reset? then Fresh()
    else if Accepts(c, s, call) then Charge(c, s, call.m)
    else s
  }

  ghost function Run(c: Config, s: State, calls: seq<Call>): (t: State)
    requires ValidState(c, s) && forall i :: 0 <= i < |calls| ==> ValidCall(calls[i])
    ensures ValidState(c, t)
    decreases |calls|
  {
    if calls == [] then s else Run(c, After(c, s, calls[0]), calls[1..])
  }

  /** Epsilon and delta the accepted calls of a run charged. */
  ghost function Accepted(c: Config, s: State, calls: seq<Call>): Amount
    requires ValidState(c, s) && forall i :: 0 <= i < |calls| ==> ValidCall(calls[i])
    decreases |calls|
  {
    if calls == [] then Amount(0.0, 0.0)
    else
      var rest := Accepted(c, After(c, s, calls[0]), calls[1..]);
      if Accepts(c, s, calls[0])
      then Amount(calls[0].m.epsilon + rest.epsilon, calls[0].m.delta + rest.delta)
      else rest
  }

  /** Sum of the `cost.epsilon` values the accepted calls of a run returned under rdp. */
  ghost function Costs(c: Config, s: State, calls: seq<Call>): real
    requires ValidState(c, s) && forall i :: 0 <= i < |calls| ==> ValidCall(calls[i])
    decreases |calls|
  {
    if calls == [] then 0.0
    else
      var t := After(c, s, calls[0]);
      (if Accepts(c, s, calls[0]) then EpsilonOf(t.rdp, c.Offsets()) - EpsilonOf(s.rdp, c.Offsets()) else 0.0)
      + Costs(c, t, calls[1..])
  }

  ghost predicate NoReset(calls: seq<Call>) {
    forall i :: 0 <= i < |calls| ==> calls[i].Consume?
  }

  /** Within what the scope allows, up to the slack of the comparison. */
  ghost predicate WithinBasic(c: Config, s: State) {
    s.spent.epsilon <= c.epsilon + SLACK && s.spent.delta <= c.delta + SLACK
  }

  /** Basic accounting over every run, resets included: the budget never records more than the
      totals (plus the slack), from any state that starts within them. */
  lemma {:induction false} BasicStaysWithin(c: Config, s: State, calls: seq<Call>)
    requires ValidState(c, s) && c.accounting == Basic && WithinBasic(c, s)
    requires forall i :: 0 <= i < |calls| ==> ValidCall(calls[i])
    ensures WithinBasic(c, Run(c, s, calls))
    decreases |calls|
  {
    if calls != [] {
      BasicStaysWithin(c, After(c, s, calls[0]), calls[1..]);
    }
  }

  /** Basic accounting between resets: the recorded spend is exactly the sum of what was accepted,
      so the accepted amounts themselves stay within the totals (plus the slack). */
  lemma {:induction false} BasicLedger(c: Config, s: State, calls: seq<Call>)
    requires ValidState(c, s) && c.accounting == Basic && NoReset(calls)
    requires forall i :: 0 <= i < |calls| ==> ValidCall(calls[i])
    ensures var t := Run(c, s, calls);
            var a := Accepted(c, s, calls);
            t.spent == Amount(s.spent.epsilon + a.epsilon, s.spent.delta + a.delta)
    decreases |calls|
  {
    if calls != [] {
      BasicLedger(c, After(c, s, calls[0]), calls[1..]);
    }
  }

  lemma BasicCeiling(c: Config, calls: seq<Call>)
    requires ValidConfig(c) && c.accounting == Basic && NoReset(calls)
    requires forall i :: 0 <= i < |calls| ==> ValidCall(calls[i])
    ensures var a := Accepted(c, Fresh(), calls);
            a.epsilon <= c.epsilon + SLACK && a.delta <= c.delta + SLACK
  {
    BasicLedger(c, Fresh(), calls);
    BasicStaysWithin(c, Fresh(), calls);
  }

  /** Renyi accounting between resets: the returned costs telescope to the growth of the
      accountant's epsilon. */
  lemma {:induction false} RdpTelescopes(c: Config, s: State, calls: seq<Call>)
    requires ValidState(c, s) && c.accounting == Rdp && NoReset(calls)
    requires forall i :: 0 <= i < |calls| ==> ValidCall(calls[i])
    ensures Costs(c, s, calls) == EpsilonOf(Run(c, s, calls).rdp, c.Offsets()) - EpsilonOf(s.rdp, c.Offsets())
    decreases |calls|
  {
    if calls != [] {
      RdpTelescopes(c, After(c, s, calls[0]), calls[1..]);
    }
  }

  lemma {:induction false} RdpKeepsWithin(c: Config, s: State, calls: seq<Call>)
    requires ValidState(c, s) && c.accounting == Rdp && NoReset(calls)
    requires forall i :: 0 <= i < |calls| ==> ValidCall(calls[i])
    requires WithinRdp(c, s)
    ensures WithinRdp(c, Run(c, s, calls))
    decreases |calls|
  {
    if calls != [] {
      RdpKeepsWithin(c, After(c, s, calls[0]), calls[1..]);
    }
  }

  ghost predicate WithinRdp(c: Config, s: State)
    requires ValidState(c, s)
  {
    EpsilonOf(s.rdp, c.Offsets()) <= c.epsilon + SLACK
  }

  /** A scope above its total refuses every release. */
  lemma AboveRefuses(c: Config, s: State, call: Call)
    requires ValidState(c, s) && c.accounting == Rdp && !WithinRdp(c, s) && ValidCall(call)
    ensures !Accepts(c, s, call)
  {
    if call.Consume? { EpsilonMonotone(s.rdp, AddEach(s.rdp, call.m.charges), c.Offsets()); }
  }

  lemma {:induction false} AboveStays(c: Config, s: State, calls: seq<Call>)
    requires ValidState(c, s) && c.accounting == Rdp && !WithinRdp(c, s) && NoReset(calls)
    requires forall i :: 0 <= i < |calls| ==> ValidCall(calls[i])
    ensures Run(c, s, calls) == s
    decreases |calls|
  {
    if calls != [] {
      AboveRefuses(c, s, calls[0]);
      AboveStays(c, s, calls[1..]);
    }
  }

  /** Renyi accounting over any run without reset: the accountant ends within the total (plus the
      slack) exactly when it started there; if it started above, nothing is accepted. */
  lemma RdpWithinExactly(c: Config, s: State, calls: seq<Call>)
    requires ValidState(c, s) && c.accounting == Rdp && NoReset(calls)
    requires forall i :: 0 <= i < |calls| ==> ValidCall(calls[i])
    ensures WithinRdp(c, Run(c, s, calls)) <==> WithinRdp(c, s)
    ensures !WithinRdp(c, s) ==> Run(c, s, calls) == s
  {
    if WithinRdp(c, s) { RdpKeepsWithin(c, s, calls); } else { AboveStays(c, s, calls); }
  }

  /** The largest order has the least offset. */
  lemma LeastOffset(logInv: real)
    requires logInv > 0.0
    ensures Least(OffsetsOf(logInv)) == logInv / 255.0
  {
    var o := OffsetsOf(logInv);
    LeastIsLeast(o);
    assert RDP_ORDERS[17] == 256.0 && o[17] == logInv / 255.0;
    forall i | 0 <= i < ORDERS ensures o[i] >= logInv / 255.0 {
      assert 0.0 < RDP_ORDERS[i] - 1.0 <= 255.0;
      Quotients(logInv, RDP_ORDERS[i] - 1.0, 255.0);
    }
  }

  lemma Quotients(n: real, a: real, b: real)
    requires n > 0.0 && 0.0 < a <= b
    ensures n / a >= n / b
  {
    var q := n / b;
    assert q * b == n && q > 0.0;
    assert q * a <= q * b;
    assert (n / a) * a == n;
  }

  /** A new scope is within its total exactly when log(1/delta) / 255 is: the options decide it. */
  lemma FreshWithinExactly(c: Config)
    requires ValidConfig(c) && c.accounting == Rdp
    ensures WithinRdp(c, Fresh()) <==> c.logInv / 255.0 <= c.epsilon + SLACK
  {
    assert AddEach(Fresh().rdp, c.Offsets()) == c.Offsets();
    LeastOffset(c.logInv);
  }

  lemma {:induction false} WithinOrNew(c: Config, s: State, calls: seq<Call>)
    requires ValidState(c, s) && c.accounting == Rdp && forall i :: 0 <= i < |calls| ==> ValidCall(calls[i])
    requires if WithinRdp(c, Fresh()) then WithinRdp(c, s) else s == Fresh()
    ensures if WithinRdp(c, Fresh()) then WithinRdp(c, Run(c, s, calls)) else Run(c, s, calls) == Fresh()
    decreases |calls|
  {
    if calls != [] {
      if !WithinRdp(c, s) { AboveRefuses(c, s, calls[0]); }
      WithinOrNew(c, After(c, s, calls[0]), calls[1..]);
    }
  }

  /** Over every run of a new scope, resets included, the accountant ends within the total (plus the
      slack) exactly when log(1/delta) / 255 is; if it is not, no call is ever accepted. */
  lemma FreshRunExactly(c: Config, calls: seq<Call>)
    requires ValidConfig(c) && c.accounting == Rdp && forall i :: 0 <= i < |calls| ==> ValidCall(calls[i])
    ensures WithinRdp(c, Run(c, Fresh(), calls)) <==> c.logInv / 255.0 <= c.epsilon + SLACK
    ensures !WithinRdp(c, Fresh()) ==> Run(c, Fresh(), calls) == Fresh()
  {
    FreshWithinExactly(c);
    WithinOrNew(c, Fresh(), calls);
  }

  /** Such a scope: a total of 1/20 with delta = 10^-9, whose log(1/delta) is more than 20, refuses every
      release. */
  lemma FreshScopeAbove(c: Config)
    requires ValidConfig(c) && c.accounting == Rdp && c.epsilon == 0.05 && c.delta == 0.000000001 && c.logInv > 20.0
    ensures !WithinRdp(c, Fresh())
    ensures forall call: Call :: ValidCall(call) ==> !Accepts(c, Fresh(), call)
  {
    FreshWithinExactly(c);
    forall call: Call | ValidCall(call) ensures !Accepts(c, Fresh(), call) {
      AboveRefuses(c, Fresh(), call);
    }
  }

  /** Between resets neither component of `remaining` ever increases, under either accounting. */
  lemma {:induction false} RemainingNeverIncreases(c: Config, s: State, calls: seq<Call>)
    requires ValidState(c, s) && NoReset(calls)
    requires forall i :: 0 <= i < |calls| ==> ValidCall(calls[i])
    ensures Remaining(c, Run(c, s, calls)).epsilon <= Remaining(c, s).epsilon
    ensures Remaining(c, Run(c, s, calls)).delta <= Remaining(c, s).delta
    decreases |calls|
  {
    if calls != [] {
      var t := After(c, s, calls[0]);
      if Accepts(c, s, calls[0]) && c.accounting == Rdp {
        EpsilonMonotone(s.rdp, t.rdp, c.Offsets());
      }
      RemainingNeverIncreases(c, t, calls[1..]);
    }
  }
}
