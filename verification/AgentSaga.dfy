/**
 Sagas with compensation and resume (lib/agent-saga.js). A step's `run` and `compensate` are
 functions on the saga state; each may fail, and a failing one may still have changed the state.
 The state store's answers to `saveStep` are an input.
 */
module AgentSaga {
  import opened Results

  datatype Outcome<S> = Good(state: S) | Bad(state: S)

  datatype Step<!S> = Step(run: S -> Outcome<S>, compensate: Option<S -> Outcome<S>>)

  /** What the saga did, in order: the index of the step whose function was called. */
  datatype Event = Ran(i: nat) | Compensated(i: nat)

  datatype End<S> =
    | Completed(state: S)
    | Failed(state: S, failedStep: nat, failedCompensation: Option<nat>)

  datatype Trace<S> = Trace(events: seq<Event>, end: End<S>)

  // ---------------------------------------------------------------- what should happen

  /** Compensation of the completed steps below n, in descending order, up to the first that throws. */
  function Unwind<S>(steps: seq<Step<S>>, n: nat, state: S): (seq<Event>, S, Option<nat>)
    requires n <= |steps|
    decreases n
  {
    if n == 0 then ([], state, None)
    else if steps[n - 1].compensate.None? then Unwind(steps, n - 1, state)
    else
      match steps[n - 1].compensate.value(state)
      case Bad(s) => ([Compensated(n - 1)], s, Some(n - 1))
      case Good(s) =>
        var (events, t, failed) := Unwind(steps, n - 1, s);
        ([Compensated(n - 1)] + events, t, failed)
  }

  /** The saga from step i on; `saves[j]` says whether the checkpoint after step j succeeds, and
      `store` whether a state store is wired. */
  function RunFrom<S>(steps: seq<Step<S>>, store: bool, saves: seq<bool>, i: nat, state: S): Trace<S>
    requires i <= |steps| == |saves|
    decreases |steps| - i
  {
    if i == |steps| then Trace([], Completed(state))
    else
      var r := steps[i].run(state);
      var done := if r.Good? then i + 1 else i;   // steps that count as completed
      if r.Good? && (store ==> saves[i]) then
        var rest := RunFrom(steps, store, saves, i + 1, r.state);
        Trace([Ran(i)] + rest.events, rest.end)
      else
        var (events, s, failed) := Unwind(steps, done, r.state);
        Trace([Ran(i)] + events, Failed(s, i, failed))
  }

  // ---------------------------------------------------------------- the loops

  lemma Regroup(a: seq<Event>, e: Event, b: seq<Event>)
    ensures a + ([e] + b) == a + [e] + b
  {
  }

  /** The compensation loop over the completed steps, last one first. */
  method Compensate<S>(steps: seq<Step<S>>, completedSteps: seq<nat>, from: S)
    returns (events: seq<Event>, state: S, failedAt: Option<nat>)
    requires |completedSteps| <= |steps|
    requires forall j :: 0 <= j < |completedSteps| ==> completedSteps[j] == j
    ensures (events, state, failedAt) == Unwind(steps, |completedSteps|, from)
  {
    events, state, failedAt := [], from, None;
    var c := |completedSteps|;
    ghost var whole := Unwind(steps, c, from);
    assert [] + whole.0 == whole.0;
    while c > 0
      invariant 0 <= c <= |completedSteps| && failedAt == None
      invariant var (u, f, a) := Unwind(steps, c, state); whole == (events + u, f, a)
    {
      c := c - 1;
      var index := completedSteps[c];
      if steps[index].compensate.None? { continue; }
      var q := steps[index].compensate.value(state);
      if q.Good? {
        ghost var u := Unwind(steps, c, q.state).0;
        Regroup(events, Compensated(c), u);
      }
      state := q.state;
      events := events + [Compensated(index)];
      if q.Bad? {
        failedAt := Some(index);
        return;
      }
    }
    assert events + [] == events;
  }

  /** `_runFrom`: run the steps in order; on the first failure, compensate backwards. */
  method RunSaga<S>(steps: seq<Step<S>>, store: bool, saves: seq<bool>, start: nat, initial: S)
    returns (events: seq<Event>, end: End<S>)
    requires start <= |steps| == |saves|
    ensures Trace(events, end) == RunFrom(steps, store, saves, start, initial)
  {
    var state := initial;
    events := [];
    var completedSteps: seq<nat> := [];
    for pre := 0 to start
      invariant |completedSteps| == pre && forall j :: 0 <= j < pre ==> completedSteps[j] == j
    {
      completedSteps := completedSteps + [pre];
    }
    ghost var whole := RunFrom(steps, store, saves, start, initial);
    assert [] + whole.events == whole.events;
    for i := start to |steps|
      invariant |completedSteps| == i && forall j :: 0 <= j < i ==> completedSteps[j] == j
      invariant var rest := RunFrom(steps, store, saves, i, state); whole == Trace(events + rest.events, rest.end)
    {
      var r := steps[i].run(state);
      var failed := r.Bad?;
      if !failed {
        completedSteps := completedSteps + [i];
        if store && !saves[i] { failed := true; }
      }
      if failed {
        var undo, final, failedAt := Compensate(steps, completedSteps, r.state);
        Regroup(events, Ran(i), undo);
        return events + [Ran(i)] + undo, Failed(final, i, failedAt);
      }
      ghost var rest := RunFrom(steps, store, saves, i + 1, r.state);
      Regroup(events, Ran(i), rest.events);
      state := r.state;
      events := events + [Ran(i)];
    }
    assert events + [] == events;
    end := Completed(state);
  }

  // ---------------------------------------------------------------- compensation

  /** The compensators called are exactly those of the steps lo..n-1, in strictly descending order; lo
      is 0, or the step whose compensator threw, which is then the last one called. */
  ghost predicate Compensates<S>(steps: seq<Step<S>>, n: nat, events: seq<Event>, failed: Option<nat>)
    requires n <= |steps|
  {
    var lo := if failed.Some? then failed.value else 0;
    && (forall e :: e in events ==> e.Compensated?)
    && (forall i: nat :: Compensated(i) in events <==> lo <= i < n && steps[i].compensate.Some?)
    && (forall a, b :: 0 <= a < b < |events| ==> events[a].i > events[b].i)
    && (failed.Some? ==> lo < n && events != [] && events[|events| - 1] == Compensated(lo))
  }

  lemma {:induction false} UnwindExactly<S>(steps: seq<Step<S>>, n: nat, state: S)
    requires n <= |steps|
    ensures var (events, s, failed) := Unwind(steps, n, state);
            Compensates(steps, n, events, failed)
    decreases n
  {
    if n != 0 {
      if steps[n - 1].compensate.None? {
        UnwindExactly(steps, n - 1, state);
      } else {
        var q := steps[n - 1].compensate.value(state);
        if q.Good? {
          UnwindExactly(steps, n - 1, q.state);
          var (events, s, failed) := Unwind(steps, n - 1, q.state);
          OneMore(steps, n, events, failed);
        }
      }
    }
  }

  lemma OneMore<S>(steps: seq<Step<S>>, n: nat, events: seq<Event>, failed: Option<nat>)
    requires 0 < n <= |steps| && steps[n - 1].compensate.Some? && Compensates(steps, n - 1, events, failed)
    ensures Compensates(steps, n, [Compensated(n - 1)] + events, failed)
  {
    forall b | 0 <= b < |events|
      ensures events[b].i < n - 1
    {
      assert events[b] in events;
      assert Compensated(events[b].i) in events;
    }
  }

  function Runs(i: nat, j: nat): seq<Event>
    requires i <= j
    decreases j - i
  {
    if i == j then [] else [Ran(i)] + Runs(i + 1, j)
  }

  lemma RunsFirst(i: nat, j: nat, rest: seq<Event>)
    requires i < j
    ensures [Ran(i)] + (Runs(i + 1, j) + rest) == Runs(i, j) + rest
    ensures j == i + 1 ==> [Ran(i)] + rest == Runs(i, j) + rest
  {
  }

  /** State after steps i..j-1, all of them successful. */
  ghost function StateFrom<S>(steps: seq<Step<S>>, i: nat, j: nat, state: S): Option<S>
    requires i <= j <= |steps|
    decreases j - i
  {
    if i == j then Some(state)
    else if steps[i].run(state).Good? then StateFrom(steps, i + 1, j, steps[i].run(state).state)
    else None
  }

  /** One step of a run that is not at its end. */
  lemma RunStep<S>(steps: seq<Step<S>>, store: bool, saves: seq<bool>, i: nat, state: S)
    requires i < |steps| == |saves|
    ensures var r, t := steps[i].run(state), RunFrom(steps, store, saves, i, state);
            if r.Good? && (store ==> saves[i]) then
              var rest := RunFrom(steps, store, saves, i + 1, r.state);
              t == Trace([Ran(i)] + rest.events, rest.end)
            else
              var (events, s, failed) := Unwind(steps, if r.Good? then i + 1 else i, r.state);
              t == Trace([Ran(i)] + events, Failed(s, i, failed))
  {
  }

  lemma StateStep<S>(steps: seq<Step<S>>, i: nat, j: nat, state: S)
    requires i <= j <= |steps|
    ensures i == j ==> StateFrom(steps, i, j, state) == Some(state)
    ensures i < j && steps[i].run(state).Good? ==> StateFrom(steps, i, j, state) == StateFrom(steps, i + 1, j, steps[i].run(state).state)
  {
  }

  /** Shape of every failed saga: the steps from i to the failed one were run in order, on the states
      of the ones before, and then the completed steps were compensated, from the state the failed
      step left. The failed step counts as completed exactly when its run had succeeded, and then
      its checkpoint failed. */
  lemma {:induction false} FailureShape<S>(steps: seq<Step<S>>, store: bool, saves: seq<bool>, i: nat, state: S)
    returns (before: S, n: nat)
    requires i <= |steps| == |saves| && RunFrom(steps, store, saves, i, state).end.Failed?
    ensures var t := RunFrom(steps, store, saves, i, state);
            var f := t.end.failedStep;
            && i <= f < |steps| && StateFrom(steps, i, f, state) == Some(before)
            && n == (if steps[f].run(before).Good? then f + 1 else f)
            && (n == f + 1 ==> store && !saves[f])
            && var (events, final, failed) := Unwind(steps, n, steps[f].run(before).state);
               t == Trace(Runs(i, f + 1) + events, Failed(final, f, failed))
    decreases |steps| - i
  {
    var r := steps[i].run(state);
    RunStep(steps, store, saves, i, state);
    StateStep(steps, i, i, state);
    hide RunFrom, Unwind, Runs, StateFrom;
    if r.Good? && (store ==> saves[i]) {
      before, n := FailureShape(steps, store, saves, i + 1, r.state);
      var f := RunFrom(steps, store, saves, i, state).end.failedStep;
      StateStep(steps, i, f, state);
      RunsFirst(i, f + 1, Unwind(steps, n, steps[f].run(before).state).0);
    } else {
      before, n := state, if r.Good? then i + 1 else i;
      RunsFirst(i, i + 1, Unwind(steps, n, r.state).0);
    }
  }

  /** A saga completes exactly when every step from i on succeeds on the state the one before left and,
      with a store, every checkpoint is saved; then each step was run once, in order, nothing was
      compensated, and the result is the last step's state. */
  lemma {:induction false} CompletesExactly<S>(steps: seq<Step<S>>, store: bool, saves: seq<bool>, i: nat, state: S)
    requires i <= |steps| == |saves|
    ensures var t, last := RunFrom(steps, store, saves, i, state), StateFrom(steps, i, |steps|, state);
            && (t.end.Completed? <==> last.Some? && (store ==> forall j :: i <= j < |steps| ==> saves[j]))
            && (t.end.Completed? ==> t.events == Runs(i, |steps|) && t.end.state == last.value)
    decreases |steps| - i
  {
    if i < |steps| {
      RunStep(steps, store, saves, i, state);
      var r := steps[i].run(state);
      hide RunFrom, Unwind;
      if r.Good? && (store ==> saves[i]) {
        CompletesExactly(steps, store, saves, i + 1, r.state);
      }
    }
  }

  /** The compensators of the steps n-1 down to lo, where there are any, all succeed, one on the state of
      the one before, and lead from one state to the other. */
  ghost predicate UndoneTo<S>(steps: seq<Step<S>>, n: nat, lo: nat, from: S, to: S)
    requires lo <= n <= |steps|
    decreases n
  {
    if n == lo then to == from
    else if steps[n - 1].compensate.None? then UndoneTo(steps, n - 1, lo, from, to)
    else steps[n - 1].compensate.value(from).Good? && UndoneTo(steps, n - 1, lo, steps[n - 1].compensate.value(from).state, to)
  }

  /** Compensation reports no failure only if every compensator succeeded; it reports step lo only if
      those above it succeeded and the one of lo threw, and the saga is left in the state that one left. */
  lemma {:induction false} UnwindStops<S>(steps: seq<Step<S>>, n: nat, state: S) returns (reached: S)
    requires n <= |steps|
    ensures var (events, final, failed) := Unwind(steps, n, state);
            if failed.None? then UndoneTo(steps, n, 0, state, final)
            else
              var lo := failed.value;
              && lo < n && UndoneTo(steps, n, lo + 1, state, reached)
              && steps[lo].compensate.Some? && steps[lo].compensate.value(reached) == Bad(final)
    decreases n
  {
    reached := state;
    if n != 0 {
      if steps[n - 1].compensate.None? {
        reached := UnwindStops(steps, n - 1, state);
      } else if steps[n - 1].compensate.value(state).Good? {
        reached := UnwindStops(steps, n - 1, steps[n - 1].compensate.value(state).state);
      }
    }
  }

  // ---------------------------------------------------------------- restoring the state

  ghost predicate UndoneAt<S>(step: Step<S>, s: S) {
    match step.run(s)
    case Bad(t) => t == s
    case Good(t) => if step.compensate.None? then t == s else step.compensate.value(t) == Good(s)
  }

  /** The compensator undoes the step, and a failed run leaves the state alone. A step without a
      compensator must have no effect. */
  ghost predicate Undoes<S(!new)>(step: Step<S>) {
    forall s: S :: UndoneAt(step, s)
  }

  /** State after the first n steps, all of them successful. */
  ghost function StateAfter<S>(steps: seq<Step<S>>, n: nat, initial: S): Option<S>
    requires n <= |steps|
  {
    if n == 0 then Some(initial)
    else
      match StateAfter(steps, n - 1, initial)
      case None => None
      case Some(s) => if steps[n - 1].run(s).Good? then Some(steps[n - 1].run(s).state) else None
  }

  lemma {:induction false} UnwindRestores<S(!new)>(steps: seq<Step<S>>, n: nat, initial: S)
    requires n <= |steps| && StateAfter(steps, n, initial).Some?
    requires forall i :: 0 <= i < n ==> Undoes(steps[i])
    ensures var (events, s, failed) := Unwind(steps, n, StateAfter(steps, n, initial).value);
            s == initial && failed == None
    decreases n
  {
    if n != 0 {
      var before := StateAfter(steps, n - 1, initial).value;
      assert Undoes(steps[n - 1]) && UndoneAt(steps[n - 1], before);
      UnwindRestores(steps, n - 1, initial);
    }
  }

  /** If every compensator undoes its step, a failed saga ends in the state it was first started
      with, no compensator throws, and this also holds for a saga resumed at step i. */
  lemma {:induction false} FailureRestores<S(!new)>(steps: seq<Step<S>>, store: bool, saves: seq<bool>, i: nat, initial: S)
    requires i <= |steps| == |saves| && StateAfter(steps, i, initial).Some?
    requires forall j :: 0 <= j < |steps| ==> Undoes(steps[j])
    ensures var end := RunFrom(steps, store, saves, i, StateAfter(steps, i, initial).value).end;
            end.Failed? ==> end.state == initial && end.failedCompensation == None
    decreases |steps| - i
  {
    if i < |steps| {
      var state := StateAfter(steps, i, initial).value;
      var r := steps[i].run(state);
      assert Undoes(steps[i]) && UndoneAt(steps[i], state);
      if r.Good? && (store ==> saves[i]) {
        FailureRestores(steps, store, saves, i + 1, initial);
      } else {
        UnwindRestores(steps, if r.Good? then i + 1 else i, initial);
      }
    }
  }

  // ---------------------------------------------------------------- crash and resume

  /** Steps i..n-1 succeed and are checkpointed. */
  ghost predicate CheckpointedTo<S>(steps: seq<Step<S>>, store: bool, saves: seq<bool>, i: nat, n: nat, state: S, saved: S)
    requires i <= n <= |steps| == |saves|
    decreases n - i
  {
    if i == n then saved == state
    else
      && steps[i].run(state).Good?
      && (store ==> saves[i])
      && CheckpointedTo(steps, store, saves, i + 1, n, steps[i].run(state).state, saved)
  }

  /** A crash after n checkpoints, followed by a resume from n with the saved state, does what the
      uninterrupted saga does: the same runs, the same compensations and the same end. */
  lemma {:induction false} ResumeSame<S>(steps: seq<Step<S>>, store: bool, saves: seq<bool>, i: nat, n: nat, state: S, saved: S)
    requires i <= n <= |steps| == |saves| && CheckpointedTo(steps, store, saves, i, n, state, saved)
    ensures var whole := RunFrom(steps, store, saves, i, state);
            var resumed := RunFrom(steps, store, saves, n, saved);
            whole == Trace(Runs(i, n) + resumed.events, resumed.end)
    decreases n - i
  {
    var resumed := RunFrom(steps, store, saves, n, saved);
    if i == n {
      assert [] + resumed.events == resumed.events;
    } else {
      ResumeSame(steps, store, saves, i + 1, n, steps[i].run(state).state, saved);
      assert [Ran(i)] + (Runs(i + 1, n) + resumed.events) == Runs(i, n) + resumed.events;
    }
  }

  /** The resume index must be the number of checkpointed steps: the saga resumed at k continues the
      crashed one exactly when k = n. A store that hands back the `stepIndex` of its last record
      resumes one step too early. */
  lemma ResumeIndexExact<S>(steps: seq<Step<S>>, store: bool, saves: seq<bool>, n: nat, k: nat, initial: S, saved: S)
    requires n <= |steps| == |saves| && k <= |steps| && CheckpointedTo(steps, store, saves, 0, n, initial, saved)
    ensures RunFrom(steps, store, saves, 0, initial).events == Runs(0, n) + RunFrom(steps, store, saves, k, saved).events
       <==> k == n
  {
    ResumeSame(steps, store, saves, 0, n, initial, saved);
    var right := RunFrom(steps, store, saves, n, saved).events;
    var other := RunFrom(steps, store, saves, k, saved).events;
    assert n < |steps| ==> right != [] && right[0] == Ran(n);
    assert k < |steps| ==> other != [] && other[0] == Ran(k);
    if Runs(0, n) + right == Runs(0, n) + other {
      assert right == (Runs(0, n) + right)[|Runs(0, n)|..] == other;
    }
  }
}
