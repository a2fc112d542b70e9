/**
 The in-memory counter store and the consume, check and reset calls of lib/ai-quota.js. Amounts and
 limits are reals. Every call reads the clock twice, once for the window and once in the store; both
 readings are parameters. Audit and metrics are not modelled.
 */
module Quota {
  import opened Results
  import opened Calendar
  import opened QuotaKeys

  // ---------------------------------------------------------------- the store

  datatype Slot = Slot(value: real, expiresAt: int)

  type Counters = map<string, Slot>

  predicate Expired(m: Counters, key: string, now: int) {
    key in m && m[key].expiresAt <= now
  }

  /** `_slot`: a missing or expired slot starts over at zero, to expire one window length from now. */
  function SlotAt(m: Counters, key: string, windowMs: int, now: int): Slot {
    if key !in m || Expired(m, key, now) then Slot(0.0, now + windowMs) else m[key]
  }

  /** `_memoryStore` */
  class MemoryStore {
    var m: Counters

    constructor ()
      ensures m == map[]
    {
      m := map[];
    }

    method Reserve(key: string, amount: real, limit: real, windowMs: int, now: int) returns (allowed: bool, used: real)
      modifies this
      ensures var e := SlotAt(old(m), key, windowMs, now);
              && allowed == (e.value + amount <= limit)
              && used == (if allowed then e.value + amount else e.value)
              && m == old(m)[key := e.(value := used)]
    {
      var e := SlotAt(m, key, windowMs, now);
      m := m[key := e];
      if e.value + amount > limit { return false, e.value; }
      m := m[key := e.(value := e.value + amount)];
      return true, e.value + amount;
    }

    method Add(key: string, amount: real, windowMs: int, now: int) returns (used: real)
      modifies this
      ensures var e := SlotAt(old(m), key, windowMs, now);
              used == e.value + amount && m == old(m)[key := e.(value := used)]
    {
      var e := SlotAt(m, key, windowMs, now);
      used := e.value + amount;
      m := m[key := e.(value := used)];
    }

    method Get(key: string, now: int) returns (value: real)
      ensures value == Reading(m, key, now)
    {
      if key !in m { return 0.0; }
      if m[key].expiresAt <= now { return 0.0; }
      value := m[key].value;
    }

    method Reset(key: string)
      modifies this
      ensures m == old(m) - {key}
    {
      m := m - {key};
    }

    method KeysWithPrefix(prefix: string) returns (keys: set<string>)
      ensures keys == set k | k in m && prefix <= k
    {
      keys := {};
      var todo := m.Keys;
      while todo != {}
        invariant todo <= m.Keys
        invariant keys == set k | k in m && k !in todo && prefix <= k
      {
        var k :| k in todo;
        todo := todo - {k};
        if prefix <= k { keys := keys + {k}; }
      }
    }
  }

  function Reading(m: Counters, key: string, now: int): real {
    if key !in m || Expired(m, key, now) then 0.0 else m[key].value
  }

  // ---------------------------------------------------------------- the calls

  datatype Enforcement = Hard | Soft | Warn

  datatype Config = Config(dimension: string, period: Period, limits: Limits, enforcement: Enforcement)

  datatype Usage = Usage(used: real, limit: real, remaining: real, allowed: bool, exceeded: bool,
                         enforcement: Enforcement, windowStart: int, resetsAt: int)

  datatype Reply = Applied(usage: Usage) | Exceeded(used: real, limit: real) | BadTenant | BadModel | BadAmount | Cleared

  function Key(c: Config, tenant: string, model: string, now: nat): string {
    KeyFor(c.dimension, c.period, tenant, model, WindowStart(c.period, now))
  }

  function Limit(c: Config, tenant: string, model: string): real {
    LimitFor(c.limits, tenant, model)
  }

  /** `_result` */
  function UsageOf(c: Config, used: real, limit: real, now: nat, mode: Enforcement, allowed: bool, exceeded: bool): Usage {
    Usage(used, limit, if limit - used < 0.0 then 0.0 else limit - used, allowed, exceeded, mode,
          WindowStart(c.period, now), WindowEnd(c.period, now))
  }

  datatype Event =
    | Consume(tenant: string, model: string, amount: real, override: Option<Enforcement>, now: nat, storeNow: int)
    | Forget(tenant: string, model: string, now: nat)
    | ForgetTenant(tenant: string)
    | ForgetAll

  function Mode(c: Config, e: Event): Enforcement
    requires e.Consume?
  {
    if e.override.Some? then e.override.value else c.enforcement
  }

  function WithoutPrefix(m: Counters, prefix: string): Counters {
    map k | k in m && !(prefix <= k) :: m[k]
  }

  /** What each call does to the counters and what it answers. */
  function Step(c: Config, m: Counters, e: Event): (Counters, Reply) {
    match e
    case Consume(tenant, model, amount, _, now, storeNow) =>
      if tenant == "" then (m, BadTenant)
      else if model == "" then (m, BadModel)
      else if amount < 0.0 then (m, BadAmount)
      else
        var key, limit := Key(c, tenant, model, now), Limit(c, tenant, model);
        var slot := SlotAt(m, key, WindowEnd(c.period, now) - WindowStart(c.period, now), storeNow);
        var used := slot.value + amount;
        if Mode(c, e) == Hard && used > limit then (m[key := slot], Exceeded(slot.value, limit))
        else
          (m[key := slot.(value := used)],
           Applied(UsageOf(c, used, limit, now, Mode(c, e), used <= limit || Mode(c, e) == Warn, used > limit)))
    case Forget(tenant, model, now) =>
      if tenant == "" then (m, BadTenant)
      else if model == "" then (m, BadModel)
      else (m - {Key(c, tenant, model, now)}, Cleared)
    case ForgetTenant(tenant) =>
      if tenant == "" then (m, BadTenant)
      else (WithoutPrefix(m, KeyPrefix(c.dimension, c.period, tenant)), Cleared)
    case ForgetAll => (map[], Cleared)
  }

  /** The budget object of `create` with the default store. */
  class Budget {
    const config: Config
    const store: MemoryStore

    constructor (config: Config)
      ensures this.config == config && fresh(store) && store.m == map[]
    {
      this.config := config;
      store := new MemoryStore();
    }

    /** `consume` */
    method Consume(e: Event) returns (reply: Reply)
      requires e.Consume?
      modifies store
      ensures (store.m, reply) == Step(config, old(store.m), e)
    {
      hide WindowStart, ResetsAt, KeyFor, LimitFor;
      if e.tenant == "" { return BadTenant; }
      if e.model == "" { return BadModel; }
      if e.amount < 0.0 { return BadAmount; }
      var mode := Mode(config, e);
      var windowStart := WindowStart(config.period, e.now);
      var resetsAt := WindowEnd(config.period, e.now);
      var windowMs := resetsAt - windowStart;
      var limit := Limit(config, e.tenant, e.model);
      var key := Key(config, e.tenant, e.model, e.now);
      if mode == Hard {
        var allowed, taken := store.Reserve(key, e.amount, limit, windowMs, e.storeNow);
        if allowed { return Applied(UsageOf(config, taken, limit, e.now, mode, true, false)); }
        return Exceeded(taken, limit);
      }
      var used := store.Add(key, e.amount, windowMs, e.storeNow);
      if used > limit { return Applied(UsageOf(config, used, limit, e.now, mode, mode == Warn, true)); }
      reply := Applied(UsageOf(config, used, limit, e.now, mode, true, false));
    }

    /** `check`, for a tenant and model that are not empty */
    method Check(tenant: string, model: string, now: nat, storeNow: int) returns (reply: Reply)
      ensures reply == if tenant == "" then BadTenant else if model == "" then BadModel
                       else var used, limit := Reading(store.m, Key(config, tenant, model, now), storeNow), Limit(config, tenant, model);
                            Applied(UsageOf(config, used, limit, now, config.enforcement, used < limit, used >= limit))
    {
      if tenant == "" { return BadTenant; }
      if model == "" { return BadModel; }
      var used := store.Get(Key(config, tenant, model, now), storeNow);
      var limit := Limit(config, tenant, model);
      reply := Applied(UsageOf(config, used, limit, now, config.enforcement, used < limit, used >= limit));
    }

    /** The loop of a tenant-wide reset. */
    method DropPrefix(prefix: string)
      modifies store
      ensures store.m == WithoutPrefix(old(store.m), prefix)
    {
      var keys := store.KeysWithPrefix(prefix);
      ghost var doomed := keys;
      while keys != {}
        invariant keys <= doomed
        invariant store.m == old(store.m) - (doomed - keys)
      {
        var k :| k in keys;
        keys := keys - {k};
        store.Reset(k);
      }
    }

    /** `reset` */
    method Reset(e: Event) returns (reply: Reply)
      requires !e.Consume?
      modifies store
      ensures (store.m, reply) == Step(config, old(store.m), e)
    {
      match e {
        case ForgetAll =>
          store.m := map[];
        case Forget(tenant, model, now) =>
          if tenant == "" { return BadTenant; }
          if model == "" { return BadModel; }
          store.Reset(Key(config, tenant, model, now));
        case ForgetTenant(tenant) =>
          if tenant == "" { return BadTenant; }
          DropPrefix(KeyPrefix(config.dimension, config.period, tenant));
      }
      reply := Cleared;
    }
  }

  // ---------------------------------------------------------------- runs

  ghost function After(c: Config, run: seq<Event>): Counters {
    if run == [] then map[] else Step(c, After(c, run[..|run| - 1]), run[|run| - 1]).0
  }

  /** What the last call of a run was told. */
  ghost function LastReply(c: Config, run: seq<Event>): Reply
    requires run != []
  {
    Step(c, After(c, run[..|run| - 1]), run[|run| - 1]).1
  }

  /** A reset call that covers the counter of a tenant and model for the window starting at w. */
  ghost predicate Covers(c: Config, e: Event, tenant: string, model: string, w: int) {
    || e.ForgetAll?
    || (e.ForgetTenant? && e.tenant == tenant)
    || (e.Forget? && e.tenant == tenant && e.model == model && WindowStart(c.period, e.now) == w)
  }

  ghost predicate Names(e: Event, tenant: string, model: string) {
    e.Consume? && e.tenant == tenant && e.model == model
  }

  /** The amounts that calls were told were applied for a tenant and model in the window starting at
      w, since the last reset that covers it. It depends on the answers, not on the counters. */
  ghost function Spent(c: Config, run: seq<Event>, tenant: string, model: string, w: int): real {
    if run == [] then 0.0
    else
      var e, before := run[|run| - 1], Spent(c, run[..|run| - 1], tenant, model, w);
      if Covers(c, e, tenant, model, w) then 0.0
      else if Names(e, tenant, model) && WindowStart(c.period, e.now) == w && LastReply(c, run).Applied? then before + e.amount
      else before
  }

  /** The store's clock reading falls in the window of the call's. */
  ghost predicate SameWindow(c: Config, e: Event) {
    e.Consume? ==> WindowStart(c.period, e.now) <= e.storeNow < WindowEnd(c.period, e.now)
  }

  ghost predicate Timely(c: Config, run: seq<Event>, tenant: string, model: string) {
    forall i :: 0 <= i < |run| && Names(run[i], tenant, model) ==> SameWindow(c, run[i])
  }

  /** The counter of a window, if there, holds what was spent, and lives to the end of the window. */
  ghost predicate Faithful(c: Config, m: Counters, run: seq<Event>, tenant: string, model: string, at: nat) {
    var key, spent := Key(c, tenant, model, at), Spent(c, run, tenant, model, WindowStart(c.period, at));
    if key in m then m[key].value == spent && m[key].expiresAt >= WindowEnd(c.period, at) else spent == 0.0
  }

  /** Calls for other counters leave this one alone. */
  lemma OtherCounter(c: Config, m: Counters, e: Event, tenant: string, model: string, at: nat)
    requires tenant != "" && model != ""
    requires !(Names(e, tenant, model) && WindowStart(c.period, e.now) == WindowStart(c.period, at))
    requires !Covers(c, e, tenant, model, WindowStart(c.period, at))
    ensures var key, m2 := Key(c, tenant, model, at), Step(c, m, e).0;
            (key in m2 <==> key in m) && (key in m ==> m2[key] == m[key])
  {
    hide WindowStart, WindowEnd, KeyFor, KeyPrefix, LimitFor;
    var w := WindowStart(c.period, at);
    match e
    case Consume(t, d, _, _, now, _) => SameKey(c, t, d, now, tenant, model, at);
    case Forget(t, d, now) => SameKey(c, t, d, now, tenant, model, at);
    case ForgetTenant(t) => PrefixExactly(c.dimension, c.period, t, tenant, model, w);
    case ForgetAll =>
  }

  lemma SameKey(c: Config, t: string, d: string, now: nat, t2: string, d2: string, at: nat)
    ensures Key(c, t, d, now) == Key(c, t2, d2, at)
            <==> t == t2 && d == d2 && WindowStart(c.period, now) == WindowStart(c.period, at)
  {
    hide WindowStart, KeyFor;
    KeySameDimension(c.dimension, c.period, t, d, WindowStart(c.period, now), t2, d2, WindowStart(c.period, at));
  }

  lemma SameEnd(p: Period, now: nat, at: nat)
    requires WindowStart(p, now) == WindowStart(p, at)
    ensures WindowEnd(p, now) == WindowEnd(p, at)
  {
    hide WindowStart;
  }

  /** A reset that covers a counter removes it. */
  lemma CoveredIsGone(c: Config, m: Counters, e: Event, tenant: string, model: string, at: nat)
    requires tenant != "" && model != "" && Covers(c, e, tenant, model, WindowStart(c.period, at))
    ensures Key(c, tenant, model, at) !in Step(c, m, e).0
  {
    hide WindowStart, KeyFor, KeyPrefix;
    if e.ForgetTenant? {
      PrefixExactly(c.dimension, c.period, tenant, tenant, model, WindowStart(c.period, at));
    } else if e.Forget? {
      SameKey(c, tenant, model, e.now, tenant, model, at);
    }
  }

  /** The counters are the ledger: over every run whose calls for this tenant and model each stay in
      one window, in any order of windows, modes, other tenants and resets. */
  lemma {:induction false} CountersAreLedger(c: Config, run: seq<Event>, tenant: string, model: string, at: nat)
    requires tenant != "" && model != "" && Timely(c, run, tenant, model)
    ensures Faithful(c, After(c, run), run, tenant, model, at)
    decreases |run|
  {
    hide WindowStart, WindowEnd, KeyFor, KeyPrefix, LimitFor;
    if run != [] {
      var before, e := run[..|run| - 1], run[|run| - 1];
      var m, w := After(c, before), WindowStart(c.period, at);
      assert Timely(c, before, tenant, model) by {
        forall i | 0 <= i < |before| && Names(before[i], tenant, model) ensures SameWindow(c, before[i]) {
          assert before[i] == run[i];
        }
      }
      CountersAreLedger(c, before, tenant, model, at);
      if Covers(c, e, tenant, model, w) {
        CoveredIsGone(c, m, e, tenant, model, at);
      } else if Names(e, tenant, model) && WindowStart(c.period, e.now) == w {
        SameEnd(c.period, e.now, at);
        assert SameWindow(c, run[|run| - 1]);
      } else {
        OtherCounter(c, m, e, tenant, model, at);
      }
    }
  }

  ghost predicate Accepts(e: Event) {
    e.Consume? && e.tenant != "" && e.model != "" && e.amount >= 0.0
  }

  /** Every answer is right: a call is refused exactly when it is hard and would pass the limit, a
      refusal changes nothing, and what is reported is the ledger of the window. */
  lemma AnswersExactly(c: Config, run: seq<Event>, e: Event)
    requires Accepts(e) && Timely(c, run, e.tenant, e.model) && SameWindow(c, e)
    ensures var w, limit := WindowStart(c.period, e.now), Limit(c, e.tenant, e.model);
            var before, after := Spent(c, run, e.tenant, e.model, w), Spent(c, run + [e], e.tenant, e.model, w);
            var reply, mode := LastReply(c, run + [e]), if e.override.None? then c.enforcement else e.override.value;
            && (reply.Exceeded? || reply.Applied?)
            && (reply.Exceeded? <==> mode == Hard && before + e.amount > limit)
            && (reply.Exceeded? ==> reply == Exceeded(before, limit) && after == before)
            && (reply.Applied? ==>
                  && after == before + e.amount
                  && var u := reply.usage;
                     && u.used == after && u.limit == limit
                     && (u.remaining > 0.0 <==> after < limit) && (after <= limit ==> u.remaining == limit - after)
                     && u.exceeded == (after > limit) && u.allowed == (after <= limit || mode == Warn) && u.enforcement == mode
                     && u.windowStart == w && u.resetsAt == WindowEnd(c.period, e.now) && w <= e.now < u.resetsAt)
  {
    hide WindowStart, ResetsAt, KeyFor, KeyPrefix, LimitFor;
    CountersAreLedger(c, run, e.tenant, e.model, e.now);
    WindowContains(c.period, e.now);
    assert (run + [e])[..|run|] == run;
    assert (run + [e])[|run|] == e;
  }

  /** A call without a tenant, without a model or with a negative amount is told the first of these, and
      no counter changes. */
  lemma BadCallsExactly(c: Config, run: seq<Event>, e: Event)
    requires e.Consume?
    ensures var reply := LastReply(c, run + [e]);
            && (reply.BadTenant? <==> e.tenant == "")
            && (reply.BadModel? <==> e.tenant != "" && e.model == "")
            && (reply.BadAmount? <==> e.tenant != "" && e.model != "" && e.amount < 0.0)
            && (reply.BadTenant? || reply.BadModel? || reply.BadAmount? ==> After(c, run + [e]) == After(c, run))
            && (reply.Applied? || reply.Exceeded? <==> Accepts(e))
  {
    hide WindowStart, WindowEnd, KeyFor, LimitFor;
    assert (run + [e])[..|run|] == run;
    assert (run + [e])[|run|] == e;
  }

  /** A reset without the names it needs is told so and changes nothing; any other is done. */
  lemma ResetsExactly(c: Config, m: Counters, e: Event)
    requires !e.Consume?
    ensures var (m2, reply) := Step(c, m, e);
            if !e.ForgetAll? && e.tenant == "" then m2 == m && reply == BadTenant
            else if e.Forget? && e.model == "" then m2 == m && reply == BadModel
            else reply == Cleared && (forall k :: k in m2 ==> k in m && m2[k] == m[k])
  {
    hide WindowStart, KeyFor, KeyPrefix;
  }

  /** A counter that is missing or has expired starts over, and lives one window length from the store's
      reading; another keeps its end. */
  lemma CounterEndsExactly(c: Config, m: Counters, e: Event)
    requires Accepts(e)
    ensures var key, m2 := Key(c, e.tenant, e.model, e.now), Step(c, m, e).0;
            && key in m2
            && m2[key].expiresAt == (if key in m && m[key].expiresAt > e.storeNow then m[key].expiresAt
                                     else e.storeNow + WindowEnd(c.period, e.now) - WindowStart(c.period, e.now))
  {
    hide WindowStart, WindowEnd, KeyFor, LimitFor;
  }

  /** The hard ceiling: while every call for a tenant and model is hard, what was accepted in a window
      never passes the limit. */
  lemma {:induction false} HardCeiling(c: Config, run: seq<Event>, tenant: string, model: string, at: nat)
    requires tenant != "" && model != "" && Timely(c, run, tenant, model) && Limit(c, tenant, model) >= 0.0
    requires forall i :: 0 <= i < |run| && Names(run[i], tenant, model) ==> Mode(c, run[i]) == Hard
    ensures 0.0 <= Spent(c, run, tenant, model, WindowStart(c.period, at)) <= Limit(c, tenant, model)
    decreases |run|
  {
    hide WindowStart, WindowEnd, KeyFor, KeyPrefix, LimitFor;
    if run != [] {
      var before, e := run[..|run| - 1], run[|run| - 1];
      forall i | 0 <= i < |before| && Names(before[i], tenant, model)
        ensures SameWindow(c, before[i]) && Mode(c, before[i]) == Hard
      {
        assert before[i] == run[i];
      }
      HardCeiling(c, before, tenant, model, at);
      assert run == before + [e];
      if Names(e, tenant, model) && Accepts(e) && WindowStart(c.period, e.now) == WindowStart(c.period, at) {
        assert SameWindow(c, run[|run| - 1]);
        AnswersExactly(c, before, e);
      }
    }
  }

  /** A check that stays in one window reports the ledger. */
  lemma CheckReportsLedger(c: Config, run: seq<Event>, tenant: string, model: string, now: nat, storeNow: int)
    requires tenant != "" && model != "" && Timely(c, run, tenant, model) && storeNow < WindowEnd(c.period, now)
    ensures Reading(After(c, run), Key(c, tenant, model, now), storeNow) == Spent(c, run, tenant, model, WindowStart(c.period, now))
  {
    hide WindowStart, WindowEnd, KeyFor, KeyPrefix;
    CountersAreLedger(c, run, tenant, model, now);
  }

  // ---------------------------------------------------------------- when the clock crosses a boundary

  /** A call keeps the ledger exactly when its counter is not an expired one that holds something:
      since counters live to the end of their window, this takes a store reading past that end. */
  lemma CrossingExactly(c: Config, run: seq<Event>, e: Event)
    requires Accepts(e) && Timely(c, run, e.tenant, e.model)
    ensures var m, key, w := After(c, run), Key(c, e.tenant, e.model, e.now), WindowStart(c.period, e.now);
            var m2 := After(c, run + [e]);
            && key in m2
            && (m2[key].value == Spent(c, run + [e], e.tenant, e.model, w)
                <==> !(Expired(m, key, e.storeNow) && m[key].value != 0.0))
            && (Expired(m, key, e.storeNow) ==> e.storeNow >= WindowEnd(c.period, e.now))
  {
    hide WindowStart, WindowEnd, KeyFor, KeyPrefix, LimitFor;
    CountersAreLedger(c, run, e.tenant, e.model, e.now);
    assert (run + [e])[..|run|] == run;
    assert (run + [e])[|run|] == e;
  }

  /** So the ceiling can be broken: a call made in the last millisecond of a minute whose store reading
      is in the next one finds the counter expired, and a full budget is spent twice. */
  lemma CrossingBreaksCeiling(c: Config)
    requires c.period == Minute && c.enforcement == Hard && Limit(c, "t", "m") > 0.0
    ensures var limit := Limit(c, "t", "m");
            var run := [Consume("t", "m", limit, None, 0, 0), Consume("t", "m", limit, None, 59999, 60000)];
            Spent(c, run, "t", "m", 0) == limit + limit
  {
    hide KeyFor, KeyPrefix, LimitFor;
    var limit := Limit(c, "t", "m");
    var e, f := Consume("t", "m", limit, None, 0, 0), Consume("t", "m", limit, None, 59999, 60000);
    var run := [e, f];
    assert run[..1] == [e] && [e][..0] == [];
    var key := Key(c, "t", "m", 0);
    assert WindowStart(Minute, 0) == 0 && WindowStart(Minute, 59999) == 0;
    assert WindowEnd(Minute, 0) == 60000;
    assert After(c, [e]) == map[key := Slot(limit, 60000)];
    assert LastReply(c, [e]).Applied?;
    assert Spent(c, [], "t", "m", 0) == 0.0;
    assert Spent(c, [e], "t", "m", 0) == limit;
  }
}
