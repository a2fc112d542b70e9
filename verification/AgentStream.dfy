/**
 The draining stream iterator of lib/agent-stream.js, and streams reopened at the cursor a drain
 marker reports. The orchestrator's drain flag and the cursor's batches are inputs of each call.
 */
module AgentStream {
  import opened Results

  /** A row with its two possible cursor fields, `_cursor` and `cursor`. */
  datatype Row = Row(primary: Option<int>, secondary: Option<int>, data: int)

  /** What `openCursor` and `fetchBatch` gave: a batch; or `openCursor` failed or gave nothing, or gave
      an object without `fetchBatch`, which is kept; or `fetchBatch` failed or gave no object. */
  datatype Fetch = Batch(rows: seq<Row>, last: bool) | NoCursor | OddCursor | BadBatch

  /** What one call of the iterator gave its consumer. */
  datatype Yield = Value(row: Row) | Marker(lastSeen: Option<int>) | Finished | Threw

  /** The closure's variables: whether there is a cursor, and whether it has `fetchBatch`; `closeCalls`
      counts the calls of its `close`, which every object here has. */
  datatype State = State(
    isOpen: bool, usable: bool, buffer: seq<Row>, done: bool, closed: bool, drained: bool,
    lastYielded: Option<int>, closeCalls: nat)

  /** `_resumeCursorFor` */
  function ResumeCursorFor(row: Row, fallback: Option<int>): Option<int> {
    if row.primary.Some? then row.primary
    else if row.secondary.Some? then row.secondary
    else fallback
  }

  const START := State(false, false, [], false, false, false, None, 0)

  function CloseOnce(s: State): State {
    if s.closed then s
    else s.(closed := true, closeCalls := s.closeCalls + (if s.isOpen then 1 else 0))
  }

  /** One call of `next`. `draining` is what isDraining() answers, `fetch` what the cursor gives if
      it is asked. */
  function Step(s: State, draining: bool, fetch: Fetch): (State, Yield) {
    if s.buffer != [] then
      var row := s.buffer[0];
      (s.(buffer := s.buffer[1..], lastYielded := ResumeCursorFor(row, s.lastYielded)), Value(row))
    else if s.done then (CloseOnce(s), Finished)
    else if draining then
      if !s.drained then (s.(drained := true, done := true), Marker(s.lastYielded))
      else (CloseOnce(s), Finished)
    else if !s.isOpen && fetch.NoCursor? then (CloseOnce(s), Threw)
    else
      var o := if s.isOpen then s else s.(isOpen := true, usable := !fetch.OddCursor?);
      if !o.usable || !fetch.Batch? then (CloseOnce(o), Threw)
      else
        var t := o.(done := o.done || fetch.last);
        if fetch.rows == [] then (CloseOnce(t), Finished)
        else (t.(buffer := fetch.rows[1..], lastYielded := ResumeCursorFor(fetch.rows[0], t.lastYielded)), Value(fetch.rows[0]))
  }

  /** `_makeIterator` */
  class Iterator {
    var isOpen: bool
    var usable: bool
    var buffer: seq<Row>
    var done: bool
    var closed: bool
    var drained: bool
    var lastYielded: Option<int>
    ghost var closeCalls: nat

    ghost function View(): State
      reads this
    {
      State(isOpen, usable, buffer, done, closed, drained, lastYielded, closeCalls)
    }

    constructor ()
      ensures View() == START
    {
      isOpen, usable, buffer, done, closed, drained, lastYielded, closeCalls := false, false, [], false, false, false, None, 0;
    }

    method CloseNow()
      modifies this`closed, this`closeCalls
      ensures View() == CloseOnce(old(View()))
    {
      if closed { return; }
      closed := true;
      if isOpen { closeCalls := closeCalls + 1; }
    }

    method Next(draining: bool, fetch: Fetch) returns (r: Yield)
      modifies this
      ensures (View(), r) == Step(old(View()), draining, fetch)
    {
      if |buffer| > 0 {
        var row := buffer[0];
        buffer := buffer[1..];
        lastYielded := ResumeCursorFor(row, lastYielded);
        return Value(row);
      }
      if done {
        if !closed { CloseNow(); }
        return Finished;
      }
      if draining {
        if !drained {
          drained := true;
          r := Marker(lastYielded);
          done := true;
          buffer := [];
          return;
        }
        CloseNow();
        return Finished;
      }
      if !isOpen {
        if fetch.NoCursor? { CloseNow(); return Threw; }
        isOpen := true;
        usable := !fetch.OddCursor?;
      }
      if !usable || !fetch.Batch? { CloseNow(); return Threw; }
      var rows := fetch.rows;
      if fetch.last { done := true; }
      if |rows| == 0 {
        if !closed { CloseNow(); }
        return Finished;
      }
      for i := 1 to |rows|
        invariant buffer == rows[1..i]
        invariant View().(buffer := []) == old(View()).(isOpen := true, usable := true, done := old(done) || fetch.last, buffer := [])
      {
        buffer := buffer + [rows[i]];
      }
      assert rows[1..|rows|] == rows[1..] by { assert rows[1..|rows|] == rows[1..][..|rows| - 1]; }
      lastYielded := ResumeCursorFor(rows[0], lastYielded);
      r := Value(rows[0]);
    }

    /** `return`: the consumer broke out of its loop. */
    method Return() returns (r: Yield)
      modifies this`closed, this`closeCalls
      ensures View() == CloseOnce(old(View())) && r == Finished
    {
      CloseNow();
      r := Finished;
    }

    /** `throw`: the consumer threw into the iterator. */
    method Throw() returns (r: Yield)
      modifies this`closed, this`closeCalls
      ensures View() == CloseOnce(old(View())) && r == Threw
    {
      CloseNow();
      r := Threw;
    }
  }

  // ---------------------------------------------------------------- any caller

  /** A call of the iterator by hand, in any order. */
  datatype Call = NextCall(draining: bool, fetch: Fetch) | ReturnCall | ThrowCall

  ghost function Called(s: State, call: Call): State {
    if call.NextCall? then Step(s, call.draining, call.fetch).0 else CloseOnce(s)
  }

  ghost function CalledAll(s: State, calls: seq<Call>): State
    decreases |calls|
  {
    if calls == [] then s else CalledAll(Called(s, calls[0]), calls[1..])
  }

  /** Whatever is called, and whatever the cursor answers, the cursor is closed at most once, and what
      was closed stays closed. */
  lemma {:induction false} ClosedAtMostOnce(s: State, calls: seq<Call>)
    requires s.closeCalls <= (if s.closed then 1 else 0)
    ensures var t := CalledAll(s, calls);
            && t.closeCalls <= (if t.closed then 1 else 0)
            && (s.closed ==> t.closed && t.closeCalls == s.closeCalls)
    decreases |calls|
  {
    if calls != [] { ClosedAtMostOnce(Called(s, calls[0]), calls[1..]); }
  }

  /** The call opens a cursor. */
  ghost predicate Opens(s: State, call: Call) {
    call.NextCall? && s.buffer == [] && !s.done && !call.draining && !s.isOpen && !call.fetch.NoCursor?
  }

  /** Some call opens a cursor when the iterator is closed already. */
  ghost predicate OpensLate(s: State, calls: seq<Call>)
    decreases |calls|
  {
    calls != [] && ((s.closed && Opens(s, calls[0])) || OpensLate(Called(s, calls[0]), calls[1..]))
  }

  /** The iterator is closed, and has a cursor that no call closed. */
  ghost predicate LeftOpen(s: State) {
    s.isOpen && s.closed && s.closeCalls == 0
  }

  lemma {:induction false} LeftOpenFrom(s: State, calls: seq<Call>)
    requires s.closeCalls <= 1 && (!s.closed || !s.isOpen ==> s.closeCalls == 0)
    ensures LeftOpen(CalledAll(s, calls)) <==> LeftOpen(s) || OpensLate(s, calls)
    decreases |calls|
  {
    if calls != [] { LeftOpenFrom(Called(s, calls[0]), calls[1..]); }
  }

  /** A cursor is left open exactly when a `next` opened it after the iterator was closed: after a
      `return`, a `throw` or an error, in any order of calls. */
  lemma LeftOpenExactly(calls: seq<Call>)
    ensures LeftOpen(CalledAll(START, calls)) <==> OpensLate(START, calls)
  {
    LeftOpenFrom(START, calls);
  }

  /** Such calls: `return` before the first `next` does not stop that `next` from opening a cursor and
      handing out its rows, and nothing called later closes it. */
  lemma OpenedTooLate(rows: seq<Row>, last: bool, calls: seq<Call>)
    requires rows != []
    ensures var s := Called(Called(START, ReturnCall), NextCall(false, Batch(rows, last)));
            && LeftOpen(s) && s.lastYielded == ResumeCursorFor(rows[0], None)
            && CalledAll(s, calls).closeCalls == 0
  {
    ClosedAtMostOnce(Called(Called(START, ReturnCall), NextCall(false, Batch(rows, last))), calls);
  }

  // ---------------------------------------------------------------- one stream over a source

  /** One turn of a for-await loop: the consumer asks for a value while the drain flag is as given and
      a fetch would give that many rows, or would fail; or it leaves the loop, or it throws into the
      iterator. */
  datatype Turn = Next(draining: bool, take: nat, last: bool) | Fault(draining: bool, fault: Fetch) | Break | Raise

  ghost predicate Asks(turn: Turn) {
    turn.Next? || turn.Fault?
  }

  /** What a fetch gives in a turn when `at` rows of the source were fetched already. */
  ghost function FetchAt(source: seq<Row>, at: nat, turn: Turn): Fetch
    requires at <= |source| && Asks(turn)
  {
    if turn.Fault? then if turn.fault.Batch? then BadBatch else turn.fault
    else
      var end := if at + turn.take <= |source| then at + turn.take else |source|;
      Batch(source[at..end], turn.last)
  }

  /** The source gives no empty batch before its end and says `last` only with its last row. */
  ghost predicate Honest(source: seq<Row>, at: nat, turn: Turn)
    requires at <= |source|
  {
    turn.Next? ==>
      && (turn.take == 0 ==> at == |source|)
      && (turn.last ==> at + turn.take >= |source|)
  }

  /** A stream in progress: the iterator, the rows fetched, what the consumer has received, and
      whether the loop was left by the consumer or by an error. */
  datatype Stream = Stream(s: State, at: nat, out: seq<Yield>, quit: bool)

  ghost predicate Fetches(s: State, turn: Turn) {
    Asks(turn) && s.buffer == [] && !s.done && !turn.draining
  }

  /** A for-await consumer stops at the first Finished or Threw. */
  ghost predicate Over(out: seq<Yield>) {
    out != [] && (out[|out| - 1].Finished? || out[|out| - 1].Threw?)
  }

  ghost function Advance(source: seq<Row>, x: Stream, turn: Turn): Stream
    requires x.at <= |source|
  {
    if Over(x.out) then x
    else
      match turn
      case Break => Stream(CloseOnce(x.s), x.at, x.out + [Finished], true)
      case Raise => Stream(CloseOnce(x.s), x.at, x.out + [Threw], true)
      case _ =>
        var fetch := FetchAt(source, x.at, turn);
        var (t, y) := Step(x.s, turn.draining, fetch);
        Stream(t, if Fetches(x.s, turn) && fetch.Batch? then x.at + |fetch.rows| else x.at, x.out + [y], x.quit || y.Threw?)
  }

  ghost function Drive(source: seq<Row>, x: Stream, turns: seq<Turn>): (z: Stream)
    requires x.at <= |source|
    ensures z.at <= |source|
    decreases |turns|
  {
    if turns == [] then x else Drive(source, Advance(source, x, turns[0]), turns[1..])
  }

  /** Every fetch along the run is honest. */
  ghost predicate HonestRun(source: seq<Row>, x: Stream, turns: seq<Turn>)
    requires x.at <= |source|
    decreases |turns|
  {
    turns == [] ||
    ((!Over(x.out) && Fetches(x.s, turns[0]) ==> Honest(source, x.at, turns[0]))
     && HonestRun(source, Advance(source, x, turns[0]), turns[1..]))
  }

  /** Rows among what the consumer received. */
  ghost function Rows(out: seq<Yield>): seq<Row> {
    if out == [] then []
    else Rows(out[..|out| - 1]) + (if out[|out| - 1].Value? then [out[|out| - 1].row] else [])
  }

  ghost function Markers(out: seq<Yield>): nat {
    if out == [] then 0
    else Markers(out[..|out| - 1]) + (if out[|out| - 1].Marker? then 1 else 0)
  }

  ghost predicate CarriesCursor(row: Row) {
    row.primary.Some? || row.secondary.Some?
  }

  ghost function CursorOf(row: Row): int
    requires CarriesCursor(row)
  {
    if row.primary.Some? then row.primary.value else row.secondary.value
  }

  ghost predicate AllCarry(source: seq<Row>) {
    forall i :: 0 <= i < |source| ==> CarriesCursor(source[i])
  }

  /** What holds of a stream opened at row `from` after every turn, whatever the source does. */
  ghost predicate Inv(source: seq<Row>, from: nat, x: Stream) {
    var got := Rows(x.out);
    && from + |got| + |x.s.buffer| == x.at <= |source|
    && got + x.s.buffer == source[from..x.at]
    // the iterator's cursor is the last row's
    && x.s.lastYielded == (if got == [] then None else ResumeCursorFor(got[|got| - 1], None))
    // a drain leaves nothing buffered
    && (x.s.drained ==> x.s.done && x.s.buffer == [])
    && Markers(x.out) == (if x.s.drained then 1 else 0)
    // a marker reports the last row the consumer received
    && (forall i :: 0 <= i < |x.out| && x.out[i].Marker? ==>
          x.out[i].lastSeen == x.s.lastYielded && forall j :: i < j < |x.out| ==> !x.out[j].Value?)
    // closing
    && x.s.closeCalls == (if x.s.closed && x.s.isOpen then 1 else 0)
    && (x.s.closed <==> Over(x.out))
    && (Over(x.out) && !x.quit ==> x.s.buffer == [])
    && (x.quit ==> Over(x.out))
    && (x.s.isOpen && !Over(x.out) ==> x.s.usable)
    && forall i :: 0 <= i < |x.out| && x.out[i].Threw? ==> x.quit
  }

  lemma RowsSnoc(out: seq<Yield>, y: Yield)
    ensures Rows(out + [y]) == Rows(out) + (if y.Value? then [y.row] else [])
    ensures Markers(out + [y]) == Markers(out) + (if y.Marker? then 1 else 0)
  {
    assert (out + [y])[..|out|] == out;
  }

  lemma LastCursor(row: Row, fallback: Option<int>)
    requires CarriesCursor(row)
    ensures ResumeCursorFor(row, fallback) == Some(CursorOf(row))
  {
  }

  /** A row handed out of the buffer. */
  lemma InvBuffered(source: seq<Row>, from: nat, x: Stream, turn: Turn)
    requires AllCarry(source) && Inv(source, from, x) && !Over(x.out) && x.s.buffer != [] && Asks(turn)
    ensures Inv(source, from, Advance(source, x, turn))
  {
    hide Rows, Markers;
    RowsSnoc(x.out, Value(x.s.buffer[0]));
    MoveFront(Rows(x.out), x.s.buffer);
    var n := |Rows(x.out)|;
    assert (Rows(x.out) + x.s.buffer)[n] == source[from..x.at][n] == source[from + n];
    LastCursor(x.s.buffer[0], x.s.lastYielded);
    NoMarker(x.out);
  }

  lemma MoveFront(a: seq<Row>, b: seq<Row>)
    requires b != []
    ensures a + b == (a + [b[0]]) + b[1..]
  {
  }

  /** A turn that asks for no batch, or leaves. */
  lemma InvNoFetch(source: seq<Row>, from: nat, x: Stream, turn: Turn)
    requires Inv(source, from, x) && !Over(x.out) && !Fetches(x.s, turn)
    requires Asks(turn) ==> x.s.buffer == []
    ensures Inv(source, from, Advance(source, x, turn))
  {
    hide Rows, Markers;
    var y := Advance(source, x, turn).out[|x.out|];
    RowsSnoc(x.out, y);
    assert Rows(x.out) + [] == Rows(x.out);
  }

  /** A turn whose batch is empty. */
  lemma InvLastFetch(source: seq<Row>, from: nat, x: Stream, turn: Turn)
    requires Inv(source, from, x) && !Over(x.out) && Fetches(x.s, turn)
    requires var fetch := FetchAt(source, x.at, turn); fetch.Batch? && fetch.rows == []
    ensures Inv(source, from, Advance(source, x, turn))
  {
    hide Rows, Markers;
    RowsSnoc(x.out, Finished);
    assert Rows(x.out) + [] == Rows(x.out);
  }

  /** A turn whose open or fetch fails. */
  lemma InvFault(source: seq<Row>, from: nat, x: Stream, turn: Turn)
    requires Inv(source, from, x) && !Over(x.out) && Fetches(x.s, turn) && turn.Fault?
    ensures Inv(source, from, Advance(source, x, turn))
  {
    hide Rows, Markers;
    RowsSnoc(x.out, Threw);
    assert Rows(x.out) + [] == Rows(x.out);
  }

  /** A turn that brings rows. */
  lemma InvFetch(source: seq<Row>, from: nat, x: Stream, turn: Turn)
    requires AllCarry(source) && Inv(source, from, x) && !Over(x.out) && Fetches(x.s, turn)
    requires var fetch := FetchAt(source, x.at, turn); fetch.Batch? && fetch.rows != []
    ensures Inv(source, from, Advance(source, x, turn))
  {
    hide Rows, Markers;
    var rows := FetchAt(source, x.at, turn).rows;
    RowsSnoc(x.out, Value(rows[0]));
    NextPiece(source, from, x.at, Rows(x.out), rows);
    LastCursor(rows[0], x.s.lastYielded);
    NoMarker(x.out);
  }

  lemma NextPiece(source: seq<Row>, from: nat, at: nat, got: seq<Row>, rows: seq<Row>)
    requires from <= at <= at + |rows| <= |source| && rows == source[at..at + |rows|] && rows != []
    requires got + [] == source[from..at]
    ensures (got + [rows[0]]) + rows[1..] == source[from..at + |rows|] && rows[0] == source[at]
  {
    assert got == source[from..at];
    MoveFront(got, rows);
  }

  lemma AdvanceInv(source: seq<Row>, from: nat, x: Stream, turn: Turn)
    requires AllCarry(source) && Inv(source, from, x)
    ensures x.at <= |source| && Inv(source, from, Advance(source, x, turn))
  {
    assert x.at <= |source|;
    hide Inv;
    if !Over(x.out) {
      if Asks(turn) && x.s.buffer != [] {
        InvBuffered(source, from, x, turn);
      } else if !Fetches(x.s, turn) {
        InvNoFetch(source, from, x, turn);
      } else if turn.Fault? {
        InvFault(source, from, x, turn);
      } else if FetchAt(source, x.at, turn).rows == [] {
        InvLastFetch(source, from, x, turn);
      } else {
        InvFetch(source, from, x, turn);
      }
    }
  }

  lemma {:induction false} DriveInv(source: seq<Row>, from: nat, x: Stream, turns: seq<Turn>)
    requires x.at <= |source| && AllCarry(source) && Inv(source, from, x)
    ensures Inv(source, from, Drive(source, x, turns))
    decreases |turns|
  {
    hide Inv;
    if turns != [] {
      AdvanceInv(source, from, x, turns[0]);
      DriveInv(source, from, Advance(source, x, turns[0]), turns[1..]);
    }
  }

  // ---------------------------------------------------------------- honest sources and others

  /** Nothing of the source was given up: a stream that is done or over was drained, left, or is at the
      source's end. */
  ghost predicate Complete(source: seq<Row>, x: Stream) {
    && (x.s.done ==> x.s.drained || x.at == |source|)
    && (Over(x.out) ==> x.quit || x.s.drained || x.at == |source|)
  }

  /** Rows were given up: the stream will not fetch or drain any more, before the source's end. */
  ghost predicate Stuck(source: seq<Row>, x: Stream) {
    x.at < |source| && !x.s.drained && (x.s.done || Over(x.out))
  }

  lemma {:induction false} StaysStuck(source: seq<Row>, x: Stream, turns: seq<Turn>)
    requires Stuck(source, x)
    ensures Stuck(source, Drive(source, x, turns))
    decreases |turns|
  {
    if turns != [] { StaysStuck(source, Advance(source, x, turns[0]), turns[1..]); }
  }

  /** A run ends complete if all its fetches were honest, and stuck otherwise. */
  lemma {:induction false} CompleteOrStuck(source: seq<Row>, from: nat, x: Stream, turns: seq<Turn>)
    requires x.at <= |source| && AllCarry(source) && Inv(source, from, x) && Complete(source, x)
    ensures if HonestRun(source, x, turns) then Complete(source, Drive(source, x, turns)) else Stuck(source, Drive(source, x, turns))
    decreases |turns|
  {
    hide Inv, Complete, Stuck;
    if turns != [] {
      var y := Advance(source, x, turns[0]);
      AdvanceInv(source, from, x, turns[0]);
      TurnCompletes(source, from, x, turns[0]);
      if !Over(x.out) && Fetches(x.s, turns[0]) && !Honest(source, x.at, turns[0]) {
        StaysStuck(source, y, turns[1..]);
      } else {
        CompleteOrStuck(source, from, y, turns[1..]);
      }
    }
  }

  lemma TurnCompletes(source: seq<Row>, from: nat, x: Stream, turn: Turn)
    requires x.at <= |source| && Inv(source, from, x) && Complete(source, x)
    ensures var y := Advance(source, x, turn);
            if !Over(x.out) && Fetches(x.s, turn) && !Honest(source, x.at, turn) then Stuck(source, y) else Complete(source, y)
  {
    hide Rows, Markers;
  }

  ghost function Open(from: nat): Stream {
    Stream(START, from, [], false)
  }

  lemma OpenInv(source: seq<Row>, from: nat)
    requires from <= |source|
    ensures Inv(source, from, Open(from))
  {
  }

  /** Over any run of one stream, whatever the source does, and with breaks and throws of the consumer
      and failing opens and fetches: the rows received are a contiguous piece of the source from where
      it was opened, at most one marker is emitted, it reports the last row received and no row follows
      it, nothing is buffered when it is emitted, and the cursor is closed at most once, exactly once
      if there is one and the loop is over. */
  lemma StreamLosesNothing(source: seq<Row>, from: nat, turns: seq<Turn>)
    requires AllCarry(source) && from <= |source|
    ensures var x := Drive(source, Open(from), turns);
            var n := |Rows(x.out)|;
            && from + n <= |source| && Rows(x.out) == source[from..from + n]
            && Markers(x.out) <= 1
            && (x.s.drained ==> x.s.buffer == [])
            && x.s.closeCalls <= 1
            && (Over(x.out) ==> x.s.closed && (x.s.isOpen ==> x.s.closeCalls == 1))
            && (forall i :: 0 <= i < |x.out| && x.out[i].Marker? ==>
                  && x.out[i].lastSeen == (if n == 0 then None else Some(CursorOf(source[from + n - 1])))
                  && forall j :: i < j < |x.out| ==> !x.out[j].Value?)
  {
    hide Drive, Rows, Markers, Inv;
    OpenInv(source, from);
    DriveInv(source, from, Open(from), turns);
    InvMeans(source, from, Drive(source, Open(from), turns));
  }

  lemma InvMeans(source: seq<Row>, from: nat, x: Stream)
    requires AllCarry(source) && Inv(source, from, x)
    ensures var n := |Rows(x.out)|;
            && from + n <= |source| && Rows(x.out) == source[from..from + n]
            && Markers(x.out) <= 1
            && (x.s.drained ==> x.s.buffer == [])
            && x.s.closeCalls <= 1
            && (Over(x.out) ==> x.s.closed && (x.s.isOpen ==> x.s.closeCalls == 1))
            && (forall i :: 0 <= i < |x.out| && x.out[i].Marker? ==>
                  && x.out[i].lastSeen == (if n == 0 then None else Some(CursorOf(source[from + n - 1])))
                  && forall j :: i < j < |x.out| ==> !x.out[j].Value?)
  {
    hide Rows, Markers;
    var got := Rows(x.out);
    Front(source, from, x.at, got, x.s.buffer);
    if |got| > 0 { LastCursor(got[|got| - 1], None); }
  }

  lemma Front(source: seq<Row>, from: nat, at: nat, got: seq<Row>, rest: seq<Row>)
    requires from <= at <= |source| && got + rest == source[from..at]
    ensures from + |got| <= |source| && got == source[from..from + |got|]
    ensures |got| > 0 ==> got[|got| - 1] == source[from + |got| - 1]
  {
    assert |got| + |rest| == at - from;
    assert got == source[from..at][..|got|];
  }

  /** A stream that is over, with no drain, break or error, delivered the whole rest of the source exactly
      when every batch was honest: none empty before the end, and `last` only with the last row. */
  lemma DeliversAllExactly(source: seq<Row>, from: nat, turns: seq<Turn>)
    requires AllCarry(source) && from <= |source|
    requires var x := Drive(source, Open(from), turns); Over(x.out) && !x.s.drained && !x.quit
    ensures Rows(Drive(source, Open(from), turns).out) == source[from..] <==> HonestRun(source, Open(from), turns)
  {
    hide Rows, HonestRun, Drive;
    OpenInv(source, from);
    DriveInv(source, from, Open(from), turns);
    CompleteOrStuck(source, from, Open(from), turns);
    var x := Drive(source, Open(from), turns);
    assert Rows(x.out) + [] == Rows(x.out);
    assert |source[from..]| == |source| - from;
    assert source[from..|source|] == source[from..];
  }

  /** Only an honest run can drain. */
  lemma DrainedIsHonest(source: seq<Row>, from: nat, turns: seq<Turn>)
    requires AllCarry(source) && from <= |source| && Drive(source, Open(from), turns).s.drained
    ensures HonestRun(source, Open(from), turns)
  {
    CompleteOrStuck(source, from, Open(from), turns);
  }

  // ---------------------------------------------------------------- reopening after drains

  ghost predicate DistinctCursors(source: seq<Row>) {
    AllCarry(source) && forall i, j :: 0 <= i < j < |source| ==> CursorOf(source[i]) != CursorOf(source[j])
  }

  /** Index just after the row with the given cursor; the source's own search. */
  ghost function After(source: seq<Row>, cursor: int): nat
    requires AllCarry(source)
  {
    if exists i :: 0 <= i < |source| && CursorOf(source[i]) == cursor
    then (var i :| 0 <= i < |source| && CursorOf(source[i]) == cursor; i + 1)
    else 0
  }

  /** Where the operator reopens: after the marker's cursor, or where this stream was opened when it
      delivered nothing. */
  ghost function ReopenAt(source: seq<Row>, from: nat, out: seq<Yield>): nat
    requires AllCarry(source)
  {
    if exists i :: 0 <= i < |out| && out[i].Marker? && out[i].lastSeen.Some?
    then (var i :| 0 <= i < |out| && out[i].Marker? && out[i].lastSeen.Some?; After(source, out[i].lastSeen.value))
    else from
  }

  lemma AfterIsNext(source: seq<Row>, i: nat)
    requires DistinctCursors(source) && i < |source|
    ensures After(source, CursorOf(source[i])) == i + 1
  {
  }

  lemma {:induction false} NoMarker(out: seq<Yield>)
    ensures Markers(out) == 0 <==> forall i :: 0 <= i < |out| ==> !out[i].Marker?
  {
    if out != [] { NoMarker(out[..|out| - 1]); }
  }

  /** A drained stream is reopened exactly behind the last row it delivered. */
  lemma ReopensBehind(source: seq<Row>, from: nat, turns: seq<Turn>)
    requires DistinctCursors(source) && from <= |source|
    ensures var x := Drive(source, Open(from), turns);
            x.s.drained ==> ReopenAt(source, from, x.out) == from + |Rows(x.out)|
  {
    StreamLosesNothing(source, from, turns);
    DriveInv(source, from, Open(from), turns);
    var x := Drive(source, Open(from), turns);
    var n := |Rows(x.out)|;
    if x.s.drained {
      NoMarker(x.out);
      if n > 0 { AfterIsNext(source, from + n - 1); }
    }
  }

  /** Rows received over several streams, each opened where the one before it tells the operator to. */
  ghost function Received(source: seq<Row>, from: nat, runs: seq<seq<Turn>>): seq<Row>
    requires AllCarry(source)
    decreases |runs|
  {
    if runs == [] || from > |source| then []
    else
      var x := Drive(source, Open(from), runs[0]);
      Rows(x.out) + Received(source, ReopenAt(source, from, x.out), runs[1..])
  }

  /** Every stream but the last ends after a drain; the last one ends by itself without. */
  ghost predicate DrainsThenEnds(source: seq<Row>, from: nat, runs: seq<seq<Turn>>)
    requires AllCarry(source)
    decreases |runs|
  {
    && runs != [] && from <= |source|
    && var x := Drive(source, Open(from), runs[0]);
    && Over(x.out)
    && if |runs| == 1 then !x.s.drained && !x.quit
       else x.s.drained && DrainsThenEnds(source, ReopenAt(source, from, x.out), runs[1..])
  }

  /** The last stream's batches are honest. */
  ghost predicate LastHonest(source: seq<Row>, from: nat, runs: seq<seq<Turn>>)
    requires AllCarry(source) && runs != []
    decreases |runs|
  {
    && from <= |source|
    && if |runs| == 1 then HonestRun(source, Open(from), runs[0])
       else LastHonest(source, ReopenAt(source, from, Drive(source, Open(from), runs[0]).out), runs[1..])
  }

  /** Drain and resume lose and repeat nothing, over any number of drains, exactly when the last stream's
      batches are honest; the drained ones always are. */
  lemma {:induction false} DrainAndResume(source: seq<Row>, from: nat, runs: seq<seq<Turn>>)
    requires AllCarry(source) && DistinctCursors(source) && DrainsThenEnds(source, from, runs)
    ensures Received(source, from, runs) == source[from..] <==> LastHonest(source, from, runs)
    decreases |runs|
  {
    hide ReopenAt, Rows, Drive, HonestRun, DistinctCursors;
    var x := Drive(source, Open(from), runs[0]);
    var n := |Rows(x.out)|;
    StreamLosesNothing(source, from, runs[0]);
    if |runs| == 1 {
      DeliversAllExactly(source, from, runs[0]);
      assert Received(source, ReopenAt(source, from, x.out), runs[1..]) == [];
    } else {
      ReopensBehind(source, from, runs[0]);
      DrainAndResume(source, from + n, runs[1..]);
      SameFront(source[from..from + n], Received(source, from + n, runs[1..]), source[from + n..]);
      assert source[from..] == source[from..from + n] + source[from + n..];
    }
  }

  lemma SameFront(a: seq<Row>, b: seq<Row>, c: seq<Row>)
    ensures a + b == a + c <==> b == c
  {
    if a + b == a + c { assert b == (a + b)[|a|..] == (a + c)[|a|..] == c; }
  }

  /** Such a source: an empty batch before the end finishes the stream with nothing delivered. */
  lemma EmptyBatchEndsStream(source: seq<Row>)
    requires |source| > 0
    ensures var x := Drive(source, Open(0), [Next(false, 0, false)]);
            Over(x.out) && !x.s.drained && !x.quit && Rows(x.out) == []
  {
    hide Rows, Markers;
    var turns := [Next(false, 0, false)];
    var x := Advance(source, Open(0), turns[0]);
    assert turns[1..] == [];
    assert Drive(source, Open(0), turns) == Drive(source, x, []);
    assert x.out == [Finished];
    RowsSnoc([], Finished);
    assert [] + [Finished] == [Finished] && Rows([]) == [] by { NoRows(); }
  }

  lemma NoRows()
    ensures Rows([]) == []
  {
  }
}
