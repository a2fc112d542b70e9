/**
 What a consumer of the streams of lib/agent-stream.js is sure to get: an answer to every ask, a
 marker when the orchestrator drains, and the whole rest of an honest source.
 */
module AgentStreamDrains {
  import opened Results
  import opened AgentStream

  /** The cursor of the last of these rows. */
  ghost function LastCursorOf(rows: seq<Row>): Option<int>
    requires AllCarry(rows)
  {
    if rows == [] then None
    else
      var row := rows[|rows| - 1];
      Some(if row.primary.Some? then row.primary.value else row.secondary.value)
  }

  /** A stream some run has reached that can still answer. */
  ghost predicate Reached(source: seq<Row>, from: nat, x: Stream) {
    from <= |source| && AllCarry(source) && !Over(x.out) && exists turns: seq<Turn> :: x == Drive(source, Open(from), turns)
  }

  lemma ReachedInv(source: seq<Row>, from: nat, x: Stream)
    requires Reached(source, from, x)
    ensures Inv(source, from, x) && !Over(x.out) && !x.quit && !x.s.closed && x.s.closeCalls == 0
    ensures AllCarry(source) && from <= x.at
    ensures var n := |Rows(x.out)|;
            && from + n + |x.s.buffer| == x.at <= |source|
            && Rows(x.out) == source[from..from + n] && AllCarry(Rows(x.out))
            && x.s.buffer == source[from + n..x.at]
            && x.s.lastYielded == LastCursorOf(Rows(x.out))
            && Markers(x.out) == (if x.s.drained then 1 else 0)
  {
    hide Rows, Markers;
    var turns :| x == Drive(source, Open(from), turns);
    OpenInv(source, from);
    DriveInv(source, from, Open(from), turns);
    Pieces(source, from, x.at, Rows(x.out), x.s.buffer);
  }

  lemma Pieces(source: seq<Row>, from: nat, at: nat, got: seq<Row>, rest: seq<Row>)
    requires from <= at <= |source| && got + rest == source[from..at]
    ensures from + |got| + |rest| == at
    ensures got == source[from..from + |got|] && rest == source[from + |got|..at]
    ensures forall i :: 0 <= i < |got| ==> got[i] == source[from + i]
  {
    assert |got| + |rest| == at - from;
    assert got == source[from..at][..|got|];
    assert rest == source[from..at][|got|..];
  }

  lemma {:induction false} DriveSnoc(source: seq<Row>, x: Stream, turns: seq<Turn>, turn: Turn)
    requires x.at <= |source|
    ensures Drive(source, x, turns + [turn]) == Advance(source, Drive(source, x, turns), turn)
    decreases |turns|
  {
    if turns == [] {
      assert [] + [turn] == [turn] && [turn][1..] == [];
      assert Drive(source, Advance(source, x, turn), []) == Advance(source, x, turn);
    } else {
      assert (turns + [turn])[1..] == turns[1..] + [turn];
      DriveSnoc(source, Advance(source, x, turns[0]), turns[1..], turn);
    }
  }

  lemma ReachedStep(source: seq<Row>, from: nat, x: Stream, turn: Turn)
    requires Reached(source, from, x) && x.at <= |source| && !Over(Advance(source, x, turn).out)
    ensures Reached(source, from, Advance(source, x, turn))
  {
    var turns :| x == Drive(source, Open(from), turns);
    DriveSnoc(source, Open(from), turns, turn);
  }

  /** Every ask of a stream that is not over is answered: with the next row of the source if one is
      buffered or the fetch brings some, with one marker if the orchestrator drains, and otherwise with
      the end or, when the open or the fetch fails, with an error; the two last close the cursor. Only a
      drain or a batch said to be the last one stops later fetches. */
  lemma AskAnswered(source: seq<Row>, from: nat, x: Stream, turn: Turn)
    requires Reached(source, from, x) && Asks(turn)
    ensures from <= x.at <= |source|
    ensures var y, n := Advance(source, x, turn), |Rows(x.out)|;
            && |y.out| == |x.out| + 1 && y.out[..|x.out|] == x.out
            && var answer := y.out[|x.out|];
            && from + n <= |source|
            && (if x.s.buffer != [] || (!x.s.done && !turn.draining && turn.Next? && turn.take > 0 && from + n < |source|)
                then from + n < |source| && answer == Value(source[from + n])
                else answer == (if x.s.done then Finished
                                else if turn.draining then Marker(LastCursorOf(source[from..from + n]))
                                else if turn.Fault? then Threw
                                else Finished))
            && y.s.closeCalls == (if (answer.Finished? || answer.Threw?) && y.s.isOpen then 1 else 0)
            && (answer.Finished? || answer.Threw? <==> y.s.closed)
            && (y.s.done <==> x.s.done || (x.s.buffer == [] && (turn.draining || (turn.Next? && turn.last))))
  {
    hide Rows, Markers, Inv;
    ReachedInv(source, from, x);
    ReachedUsable(source, from, x);
    var n := |Rows(x.out)|;
    if x.s.buffer != [] { assert x.s.buffer[0] == source[from + n]; }
    assert forall y: Yield :: (x.out + [y])[..|x.out|] == x.out;
  }

  lemma ReachedUsable(source: seq<Row>, from: nat, x: Stream)
    requires Inv(source, from, x) && !Over(x.out)
    ensures x.s.isOpen ==> x.s.usable
    ensures x.s.drained ==> x.s.done && x.s.buffer == []
  {
    hide Rows, Markers;
  }

  /** A drain that finds nothing buffered: the ask gives exactly one marker, with the cursor of the last
      row delivered, fetches nothing and leaves the cursor open; the next ask, whatever it meets, gives
      Finished and closes the cursor if there is one. */
  lemma DrainGivesMarker(source: seq<Row>, from: nat, x: Stream, turn: Turn, next: Turn)
    requires Reached(source, from, x) && x.s.buffer == [] && !x.s.done
    requires Asks(turn) && turn.draining && Asks(next)
    ensures x.at <= |source| && AllCarry(Rows(x.out)) && Markers(x.out) == 0
    ensures var y := Advance(source, x, turn);
            var z := Advance(source, y, next);
            && y.out == x.out + [Marker(LastCursorOf(Rows(x.out)))] && Markers(y.out) == 1 && y.s.drained
            && y.at == x.at && y.s.isOpen == x.s.isOpen && !y.s.closed && y.s.closeCalls == 0 && !Over(y.out)
            && z.out == y.out + [Finished] && z.at == x.at && Over(z.out) && !z.quit
            && z.s.closed && z.s.closeCalls == (if x.s.isOpen then 1 else 0)
  {
    hide Rows, Markers, Inv;
    ReachedInv(source, from, x);
    ReachedUsable(source, from, x);
    RowsSnoc(x.out, Marker(x.s.lastYielded));
  }

  ghost predicate AllDrain(turns: seq<Turn>) {
    forall i :: 0 <= i < |turns| ==> Asks(turns[i]) && turns[i].draining
  }

  lemma {:induction false} OverStays(source: seq<Row>, x: Stream, turns: seq<Turn>)
    requires x.at <= |source| && Over(x.out)
    ensures Drive(source, x, turns) == x
    decreases |turns|
  {
    if turns != [] { OverStays(source, x, turns[1..]); }
  }

  /** Once the orchestrator drains for good, a consumer that keeps asking gets every row fetched so far,
      then one marker, unless the source had ended already, and then the end: the stream is over after
      at most two asks more than there are rows buffered, with its cursor closed. */
  lemma {:induction false} DrainEnds(source: seq<Row>, from: nat, x: Stream, turns: seq<Turn>)
    requires Reached(source, from, x) && x.at <= |source| && AllDrain(turns) && |turns| >= |x.s.buffer| + 2
    ensures from <= x.at
    ensures var z := Drive(source, x, turns);
            && Over(z.out) && !z.quit && z.at == x.at && Rows(z.out) == source[from..x.at]
            && (!x.s.done || x.s.drained ==> z.s.drained && Markers(z.out) == 1)
            && (x.s.done && !x.s.drained ==> !z.s.drained && Markers(z.out) == 0)
            && z.s.closed && z.s.closeCalls == (if x.s.isOpen then 1 else 0)
    decreases |turns|
  {
    hide Rows, Markers, Inv, Drive, Reached;
    ReachedInv(source, from, x);
    ReachedUsable(source, from, x);
    var y := Advance(source, x, turns[0]);
    DriveTwo(source, x, turns);
    if x.s.buffer != [] {
      NextRow(source, from, x, turns[0]);
      DrainEnds(source, from, y, turns[1..]);
    } else if !x.s.done {
      LastAsks(source, from, x, turns);
    } else {
      RowsSnoc(x.out, Finished);
      OverStays(source, y, turns[1..]);
      assert Rows(x.out) + [] == Rows(x.out);
    }
  }

  lemma DriveTwo(source: seq<Row>, x: Stream, turns: seq<Turn>)
    requires x.at <= |source| && |turns| >= 2
    ensures var y := Advance(source, x, turns[0]);
            Drive(source, x, turns) == Drive(source, y, turns[1..]) == Drive(source, Advance(source, y, turns[1]), turns[2..])
  {
    assert turns[1..][1..] == turns[2..];
  }

  lemma NextRow(source: seq<Row>, from: nat, x: Stream, turn: Turn)
    requires Reached(source, from, x) && x.at <= |source| && Asks(turn) && x.s.buffer != []
    ensures var y := Advance(source, x, turn);
            && Reached(source, from, y) && y.at == x.at && |y.s.buffer| == |x.s.buffer| - 1
            && y.s == x.s.(buffer := y.s.buffer, lastYielded := y.s.lastYielded)
  {
    hide Drive;
    ReachedStep(source, from, x, turn);
  }

  lemma LastAsks(source: seq<Row>, from: nat, x: Stream, turns: seq<Turn>)
    requires Reached(source, from, x) && x.at <= |source| && AllDrain(turns) && |turns| >= 2
    requires x.s.buffer == [] && !x.s.done
    ensures var z := Drive(source, x, turns);
            && Over(z.out) && !z.quit && z.at == x.at && Rows(z.out) == Rows(x.out) && Markers(z.out) == 1
            && z.s.drained && z.s.closed && z.s.closeCalls == (if x.s.isOpen then 1 else 0)
  {
    hide Rows, Markers, Inv, Drive, Reached;
    ReachedInv(source, from, x);
    DriveTwo(source, x, turns);
    DrainGivesMarker(source, from, x, turns[0], turns[1]);
    var y := Advance(source, x, turns[0]);
    RowsSnoc(x.out, y.out[|x.out|]);
    RowsSnoc(y.out, Finished);
    assert Rows(x.out) + [] == Rows(x.out);
    OverStays(source, Advance(source, y, turns[1]), turns[2..]);
  }

  /** The same for a whole run: whatever went before, a stream that is neither done nor over when the
      flag is raised for good ends drained, with exactly one marker and everything it fetched delivered. */
  lemma RaisedFlagDrains(source: seq<Row>, from: nat, before: seq<Turn>, turns: seq<Turn>)
    requires from <= |source| && AllCarry(source)
    requires var x := Drive(source, Open(from), before); !Over(x.out) && !x.s.done && |turns| >= |x.s.buffer| + 2
    requires AllDrain(turns)
    ensures from <= Drive(source, Open(from), before).at
    ensures var x := Drive(source, Open(from), before);
            var z := Drive(source, x, turns);
            && Over(z.out) && z.s.drained && Markers(z.out) == 1 && Rows(z.out) == source[from..x.at]
  {
    hide Drive, Rows, Markers, Over;
    DrainEnds(source, from, Drive(source, Open(from), before), turns);
  }

  /** The consumer asks, nothing drains, and every fetch gives rows until the source ends. */
  ghost predicate Plentiful(turns: seq<Turn>) {
    forall i :: 0 <= i < |turns| ==> turns[i].Next? && !turns[i].draining && turns[i].take > 0 && !turns[i].last
  }

  /** A stream that is never drained, over a source whose fetches give rows until it ends, ends by itself
      with the whole rest of the source delivered. */
  lemma {:induction false} AsksDeliverAll(source: seq<Row>, from: nat, x: Stream, turns: seq<Turn>)
    requires Reached(source, from, x) && x.at <= |source| && !x.s.done && Plentiful(turns)
    requires from + |Rows(x.out)| <= |source| && |turns| > |source| - from - |Rows(x.out)|
    ensures var z := Drive(source, x, turns);
            && Over(z.out) && !z.quit && !z.s.drained && Rows(z.out) == source[from..]
    decreases |turns|
  {
    hide Rows, Markers, Inv, Reached;
    ReachedInv(source, from, x);
    ReachedUsable(source, from, x);
    AskAnswered(source, from, x, turns[0]);
    var y := Advance(source, x, turns[0]);
    var n := |Rows(x.out)|;
    RowsSnoc(x.out, y.out[|x.out|]);
    assert x.out + [y.out[|x.out|]] == y.out;
    if from + n < |source| {
      assert y.out[|x.out|] == Value(source[from + n]);
      ReachedStep(source, from, x, turns[0]);
      AsksDeliverAll(source, from, y, turns[1..]);
    } else {
      assert y.out[|x.out|] == Finished;
      OverStays(source, y, turns[1..]);
      assert Rows(x.out) + [] == Rows(x.out);
      assert source[from..from + n] == source[from..];
    }
  }
}
