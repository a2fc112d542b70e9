/** When a call of lib/ai-dp.js's budget is accepted and what it leaves, in terms of what was accepted before. */
module DpBudgetCalls {
  import opened DpBudget

  ghost predicate AllValid(calls: seq<Call>) {
    forall i :: 0 <= i < |calls| ==> ValidCall(calls[i])
  }

  /** The mechanism itself is in order for this scope. */
  ghost predicate Usable(c: Config, m: Mechanism) {
    m.kind != Unsupported && (m.kind == Gaussian ==> c.delta > 0.0)
  }

  /** Basic accounting, after any calls since the scope was opened: a release is accepted exactly when its
      mechanism is in order, the epsilons and the deltas accepted so far with its own stay within the
      totals (to 10^-12), and its value is finite. */
  lemma BasicAcceptsExactly(c: Config, calls: seq<Call>, call: Call)
    requires ValidConfig(c) && c.accounting == Basic && NoReset(calls) && AllValid(calls) && call.Consume? && ValidCall(call)
    ensures Accepts(c, Run(c, Fresh(), calls), call)
       <==> && Usable(c, call.m) && call.finiteValue
            && Accepted(c, Fresh(), calls).epsilon + call.m.epsilon <= c.epsilon + 0.000000000001
            && Accepted(c, Fresh(), calls).delta + call.m.delta <= c.delta + 0.000000000001
  {
    BasicLedger(c, Fresh(), calls);
  }

  ghost predicate LeftOver(total: real, used: real, left: real) {
    left == (if total >= used then total - used else 0.0)
  }

  /** What a basic budget reports as remaining is what the accepted calls left of the totals. */
  lemma BasicRemainingExactly(c: Config, calls: seq<Call>)
    requires ValidConfig(c) && c.accounting == Basic && NoReset(calls) && AllValid(calls)
    ensures var a, left := Accepted(c, Fresh(), calls), Remaining(c, Run(c, Fresh(), calls));
            LeftOver(c.epsilon, a.epsilon, left.epsilon) && LeftOver(c.delta, a.delta, left.delta)
  {
    BasicLedger(c, Fresh(), calls);
  }

  /** The reason given: the mechanism's kind first, then a Gaussian without a delta, then the budget, and
      only then the value. */
  lemma ReasonExactly(c: Config, s: State, call: Call)
    requires ValidState(c, s) && call.Consume? && ValidCall(call)
    ensures var o, m := Objection(c, s, call.m, call.finiteValue), call.m;
            && (o == [BadMechanism] <==> m.kind == Unsupported)
            && (o == [BadDelta] <==> m.kind == Gaussian && c.delta <= 0.0)
            && (o == [BadValue] <==> Usable(c, m) && !call.finiteValue && Accepts(c, s, call.(finiteValue := true)))
            && (o == [BudgetExhausted] <==> Usable(c, m) && !Accepts(c, s, call.(finiteValue := true)))
            && (o == [] <==> Accepts(c, s, call))
  {
  }

  // ---------------------------------------------------------------- Renyi accounting

  /** The orders, written out. */
  ghost function Orders(): seq<real> {
    [1.25, 1.5, 1.75, 2.0, 2.5, 3.0, 4.0, 5.0, 6.0, 8.0, 12.0, 16.0, 24.0, 32.0, 48.0, 64.0, 128.0, 256.0]
  }

  /** What the accepted calls of a run charged at order i. */
  ghost function ChargedAt(c: Config, s: State, calls: seq<Call>, i: nat): real
    requires ValidState(c, s) && AllValid(calls) && i < 18
    decreases |calls|
  {
    if calls == [] then 0.0
    else
      (if Accepts(c, s, calls[0]) then calls[0].m.charges[i] else 0.0) + ChargedAt(c, After(c, s, calls[0]), calls[1..], i)
  }

  lemma {:induction false} RdpLedger(c: Config, s: State, calls: seq<Call>, i: nat)
    requires ValidState(c, s) && c.accounting == Rdp && NoReset(calls) && AllValid(calls) && i < 18
    ensures Run(c, s, calls).rdp[i] == s.rdp[i] + ChargedAt(c, s, calls, i)
    decreases |calls|
  {
    if calls != [] { RdpLedger(c, After(c, s, calls[0]), calls[1..], i); }
  }

  /** The epsilon that order i certifies after these charges: the charges with log(1/delta) / (order - 1). */
  ghost function EpsilonAt(c: Config, calls: seq<Call>, more: real, i: nat): real
    requires ValidConfig(c) && AllValid(calls) && i < 18
  {
    ChargedAt(c, Fresh(), calls, i) + more + c.logInv / (Orders()[i] - 1.0)
  }

  lemma SumsAre(c: Config, calls: seq<Call>, more: seq<real>)
    requires ValidConfig(c) && c.accounting == Rdp && NoReset(calls) && AllValid(calls) && |more| == 18
    ensures |Run(c, Fresh(), calls).rdp| == 18
    ensures var sums := AddEach(AddEach(Run(c, Fresh(), calls).rdp, more), c.Offsets());
            |sums| == 18 && forall i :: 0 <= i < 18 ==> sums[i] == EpsilonAt(c, calls, more[i], i)
  {
    forall i | 0 <= i < 18
      ensures AddEach(AddEach(Run(c, Fresh(), calls).rdp, more), c.Offsets())[i] == EpsilonAt(c, calls, more[i], i)
    {
      RdpLedger(c, Fresh(), calls, i);
      assert RDP_ORDERS[i] == Orders()[i];
    }
  }

  /** Renyi accounting, after any calls since the scope was opened: a release is accepted exactly when its
      mechanism is in order, its value is finite, and some order certifies an epsilon within the total (to
      10^-12) for what was accepted so far and the release together. */
  lemma RdpAcceptsExactly(c: Config, calls: seq<Call>, call: Call)
    requires ValidConfig(c) && c.accounting == Rdp && NoReset(calls) && AllValid(calls) && call.Consume? && ValidCall(call)
    ensures Accepts(c, Run(c, Fresh(), calls), call)
       <==> && Usable(c, call.m) && call.finiteValue
            && exists i: nat :: i < 18 && EpsilonAt(c, calls, call.m.charges[i], i) <= c.epsilon + 0.000000000001
  {
    hide EpsilonAt, Run;
    SumsAre(c, calls, call.m.charges);
    LeastIsLeast(AddEach(AddEach(Run(c, Fresh(), calls).rdp, call.m.charges), c.Offsets()));
  }

  /** What such a budget reports as remaining: the total less the best epsilon any order certifies, and all
      of delta. */
  lemma RdpRemainingExactly(c: Config, calls: seq<Call>)
    requires ValidConfig(c) && c.accounting == Rdp && NoReset(calls) && AllValid(calls)
    ensures var left := Remaining(c, Run(c, Fresh(), calls));
            && left.delta == c.delta
            && (exists i: nat :: i < 18 && LeftOver(c.epsilon, EpsilonAt(c, calls, 0.0, i), left.epsilon)
                  && forall j: nat :: j < 18 ==> EpsilonAt(c, calls, 0.0, i) <= EpsilonAt(c, calls, 0.0, j))
  {
    hide EpsilonAt, Run;
    var rdp := Run(c, Fresh(), calls).rdp;
    SumsAre(c, calls, Zeros(18));
    assert AddEach(rdp, Zeros(18)) == rdp;
    LeastIsLeast(AddEach(rdp, c.Offsets()));
    var best := EpsilonOf(rdp, c.Offsets());
    var i :| 0 <= i < 18 && AddEach(rdp, c.Offsets())[i] == best;
    assert EpsilonAt(c, calls, 0.0, i) == best;
    forall j: nat | j < 18
      ensures best <= EpsilonAt(c, calls, 0.0, j)
    {
      assert AddEach(rdp, c.Offsets())[j] == EpsilonAt(c, calls, 0.0, j);
    }
    assert LeftOver(c.epsilon, EpsilonAt(c, calls, 0.0, i), Remaining(c, Run(c, Fresh(), calls)).epsilon);
  }
}
