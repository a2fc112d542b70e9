/**
 The idempotency claim protocol (lib/agent-idempotency.js): `putIfAbsent` and `put` over the
 in-memory store, as processes that interleave at every await. The clock is an input of each
 step. Nothing here deletes, expires or evicts a row.
 */
module AgentIdempotency {
  import opened Results

  /** A stored row; `result` is None exactly while the row is pending. */
  datatype Row = Row(fingerprint: Option<string>, result: Option<string>, firstAt: int)

  type Rows = map<string, Row>

  datatype Answer =
    | Unclaimed(fingerprint: Option<string>)
    | Pending(firstAt: int)
    | Replay(result: string, firstAt: int)
    | KeyReuse

  /** A call, by the await it has reached. */
  datatype Proc =
    | ClaimStart(key: string, fingerprint: Option<string>)
    | ClaimLookup(key: string, fingerprint: Option<string>)                         // insert found the key taken
    | ClaimDone(key: string, answer: Answer)
    | PutStart(key: string, fingerprint: Option<string>, result: string)
    | PutWrite(key: string, fingerprint: Option<string>, result: string, existing: Option<Row>)
    | PutDone(key: string, accepted: bool)

  predicate Differ(a: Option<string>, b: Option<string>) {
    a.Some? && b.Some? && a != b
  }

  // ---------------------------------------------------------------- the store

  /** `_inMemoryBackend` */
  class Backend {
    var rows: Rows

    constructor ()
      ensures rows == map[]
    {
      rows := map[];
    }

    method Get(k: string) returns (r: Option<Row>)
      ensures r == Lookup(rows, k)
    {
      r := if k in rows then Some(rows[k]) else None;
    }

    method Put(k: string, row: Row)
      modifies this
      ensures rows == old(rows)[k := row]
    {
      rows := rows[k := row];
    }

    method PutIfAbsent(k: string, row: Row) returns (inserted: bool)
      modifies this
      ensures inserted == (k !in old(rows))
      ensures rows == if inserted then old(rows)[k := row] else old(rows)
    {
      if k in rows { return false; }
      rows := rows[k := row];
      return true;
    }

    /** One uninterrupted piece of `_putIfAbsent` or `_put`, up to the next await. */
    method Resume(p: Proc, now: int) returns (q: Proc)
      modifies this
      ensures (rows, q) == StepProc(old(rows), p, now)
    {
      match p {
        case ClaimStart(k, fp) =>
          var inserted := PutIfAbsent(k, Row(fp, None, now));
          q := if inserted then ClaimDone(k, Unclaimed(fp)) else ClaimLookup(k, fp);
        case ClaimLookup(k, fp) =>
          var existing := Get(k);
          if existing.None? { return ClaimDone(k, Unclaimed(fp)); }
          if Differ(existing.value.fingerprint, fp) { return ClaimDone(k, KeyReuse); }
          if existing.value.result.None? { return ClaimDone(k, Pending(existing.value.firstAt)); }
          q := ClaimDone(k, Replay(existing.value.result.value, existing.value.firstAt));
        case PutStart(k, fp, result) =>
          var existing := Get(k);
          if existing.Some? && Differ(existing.value.fingerprint, fp) { return PutDone(k, false); }
          q := PutWrite(k, fp, result, existing);
        case PutWrite(k, fp, result, existing) =>
          var firstAt := if existing.Some? then existing.value.firstAt else now;
          Put(k, Row(fp, Some(result), firstAt));
          q := PutDone(k, true);
        case ClaimDone(_, _) => q := p;
        case PutDone(_, _) => q := p;
      }
    }
  }

  function Lookup(rows: Rows, k: string): Option<Row> {
    if k in rows then Some(rows[k]) else None
  }

  /** The store and the call after one piece. */
  function StepProc(rows: Rows, p: Proc, now: int): (Rows, Proc) {
    match p
    case ClaimStart(k, fp) =>
      if k in rows then (rows, ClaimLookup(k, fp))
      else (rows[k := Row(fp, None, now)], ClaimDone(k, Unclaimed(fp)))
    case ClaimLookup(k, fp) => (rows, ClaimDone(k, Answered(Lookup(rows, k), fp)))
    case PutStart(k, fp, result) =>
      var existing := Lookup(rows, k);
      (rows, if existing.Some? && Differ(existing.value.fingerprint, fp) then PutDone(k, false) else PutWrite(k, fp, result, existing))
    case PutWrite(k, fp, result, existing) =>
      (rows[k := Row(fp, Some(result), if existing.Some? then existing.value.firstAt else now)], PutDone(k, true))
    case ClaimDone(_, _) => (rows, p)
    case PutDone(_, _) => (rows, p)
  }

  function Answered(existing: Option<Row>, fp: Option<string>): Answer {
    if existing.None? then Unclaimed(fp)
    else if Differ(existing.value.fingerprint, fp) then KeyReuse
    else if existing.value.result.None? then Pending(existing.value.firstAt)
    else Replay(existing.value.result.value, existing.value.firstAt)
  }

  // ---------------------------------------------------------------- interleavings

  /** The store, the calls in flight, and the result of the last put of each key. */
  datatype World = World(rows: Rows, procs: seq<Proc>, lastPut: map<string, string>)

  /** Who takes the next piece, and the clock it reads. */
  datatype Turn = Turn(who: nat, now: int)

  ghost function Advance(w: World, t: Turn): World {
    if t.who >= |w.procs| then w
    else
      var p := w.procs[t.who];
      var (rows, q) := StepProc(w.rows, p, t.now);
      World(rows, w.procs[t.who := q], if p.PutWrite? then w.lastPut[p.key := p.result] else w.lastPut)
  }

  ghost function Run(w: World, turns: seq<Turn>): World
    decreases |turns|
  {
    if turns == [] then w else Run(Advance(w, turns[0]), turns[1..])
  }

  /** Calls that have not begun, over an empty store. */
  ghost predicate Initial(w: World) {
    && w.rows == map[] && w.lastPut == map[]
    && forall i :: 0 <= i < |w.procs| ==> w.procs[i].ClaimStart? || w.procs[i].PutStart?
  }

  ghost predicate ToldUnclaimed(p: Proc, k: string) {
    p.ClaimDone? && p.key == k && p.answer.Unclaimed?
  }

  /** At most one call was told that k is unclaimed, and none while k is absent. */
  ghost predicate OneClaim(w: World, k: string) {
    && (forall i, j :: 0 <= i < j < |w.procs| ==> !(ToldUnclaimed(w.procs[i], k) && ToldUnclaimed(w.procs[j], k)))
    && (k !in w.rows ==> forall i :: 0 <= i < |w.procs| ==> !ToldUnclaimed(w.procs[i], k) && !(w.procs[i].ClaimLookup? && w.procs[i].key == k))
  }

  /** The row of k is pending until the first put and holds the last put's result afterwards. */
  ghost predicate HoldsLast(w: World, k: string) {
    if k in w.lastPut then k in w.rows && w.rows[k].result == Some(w.lastPut[k])
    else k in w.rows ==> w.rows[k].result == None
  }

  ghost predicate Inv(w: World, k: string) {
    OneClaim(w, k) && HoldsLast(w, k)
  }

  lemma AdvanceInv(w: World, k: string, t: Turn)
    requires Inv(w, k)
    ensures Inv(Advance(w, t), k)
    ensures k in w.rows ==> k in Advance(w, t).rows
  {
    if t.who < |w.procs| {
      var p := w.procs[t.who];
      var z := Advance(w, t);
      assert forall i :: 0 <= i < |w.procs| && i != t.who ==> z.procs[i] == w.procs[i];
      if p.ClaimLookup? && p.key == k { assert k in w.rows; }
    }
  }

  lemma {:induction false} RunInv(w: World, k: string, turns: seq<Turn>)
    requires Inv(w, k)
    ensures Inv(Run(w, turns), k)
    ensures k in w.rows ==> k in Run(w, turns).rows
    decreases |turns|
  {
    if turns != [] {
      AdvanceInv(w, k, turns[0]);
      RunInv(Advance(w, turns[0]), k, turns[1..]);
    }
  }

  /** At most once: in every interleaving of any calls over an empty store, at most one is told that a
      key is unclaimed. */
  lemma AtMostOneClaim(w: World, turns: seq<Turn>, k: string, i: nat, j: nat)
    requires Initial(w) && i < |Run(w, turns).procs| && j < |Run(w, turns).procs|
    requires ToldUnclaimed(Run(w, turns).procs[i], k) && ToldUnclaimed(Run(w, turns).procs[j], k)
    ensures i == j
  {
    RunInv(w, k, turns);
  }

  /** What every other claim sees: at the moment it looks, the key's row is there, and unless its
      fingerprint differs it is told pending while nothing was put and the last put result after. */
  lemma OthersSeeLastPut(w: World, turns: seq<Turn>, t: Turn)
    requires Initial(w)
    requires var x := Run(w, turns); t.who < |x.procs| && x.procs[t.who].ClaimLookup?
    ensures var x := Run(w, turns);
            var p := x.procs[t.who];
            var q := Advance(x, t).procs[t.who];
            && p.key in x.rows && q.ClaimDone? && q.key == p.key
            && var stored := x.rows[p.key].fingerprint;
               if stored.Some? && p.fingerprint.Some? && stored.value != p.fingerprint.value then q.answer == KeyReuse
               else if p.key in x.lastPut then q.answer == Replay(x.lastPut[p.key], x.rows[p.key].firstAt)
               else q.answer == Pending(x.rows[p.key].firstAt)
  {
    var x := Run(w, turns);
    RunInv(w, x.procs[t.who].key, turns);
  }

  // ---------------------------------------------------------------- fingerprints

  /** k is claimed under the fingerprint f. */
  ghost predicate ClaimedAs(w: World, k: string, f: string) {
    k in w.rows && w.rows[k].fingerprint == Some(f)
  }

  /** Every put of k carries a fingerprint. */
  ghost predicate PutsSupply(w: World, k: string) {
    forall i :: 0 <= i < |w.procs| ==>
      (w.procs[i].PutStart? || w.procs[i].PutWrite?) && w.procs[i].key == k ==> w.procs[i].fingerprint.Some?
  }

  /** A put of k that has passed its check and is about to write another fingerprint. Since the row was
      there for every check made after the claim, such a put read the key before it was claimed. */
  ghost predicate OvertakenPut(w: World, k: string, f: string) {
    exists i :: 0 <= i < |w.procs| && w.procs[i].PutWrite? && w.procs[i].key == k && w.procs[i].fingerprint != Some(f)
  }

  lemma AdvanceKeepsFingerprint(w: World, k: string, f: string, t: Turn)
    requires ClaimedAs(w, k, f) && PutsSupply(w, k) && !OvertakenPut(w, k, f)
    ensures var z := Advance(w, t); ClaimedAs(z, k, f) && PutsSupply(z, k) && !OvertakenPut(z, k, f)
  {
    if t.who < |w.procs| {
      var z := Advance(w, t);
      assert forall i :: 0 <= i < |w.procs| && i != t.who ==> z.procs[i] == w.procs[i];
    }
  }

  lemma {:induction false} RunKeepsFingerprint(w: World, k: string, f: string, turns: seq<Turn>)
    requires ClaimedAs(w, k, f) && PutsSupply(w, k) && !OvertakenPut(w, k, f)
    ensures ClaimedAs(Run(w, turns), k, f)
    decreases |turns|
  {
    if turns != [] {
      AdvanceKeepsFingerprint(w, k, f, turns[0]);
      RunKeepsFingerprint(Advance(w, turns[0]), k, f, turns[1..]);
    }
  }

  lemma OneTurn(w: World, t: Turn)
    ensures Run(w, [t]) == Advance(w, t)
  {
    assert [t][1..] == [];
    assert Run(Advance(w, t), []) == Advance(w, t);
  }

  /** The stored fingerprint of a claimed key never changes exactly when no put that checked the key
      before the claim is still about to write a different one. */
  lemma FingerprintFixedExactly(w: World, k: string, f: string)
    requires ClaimedAs(w, k, f) && PutsSupply(w, k)
    ensures (forall turns: seq<Turn> :: ClaimedAs(Run(w, turns), k, f)) <==> !OvertakenPut(w, k, f)
  {
    if OvertakenPut(w, k, f) {
      var i :| 0 <= i < |w.procs| && w.procs[i].PutWrite? && w.procs[i].key == k && w.procs[i].fingerprint != Some(f);
      OneTurn(w, Turn(i, 0));
      assert !ClaimedAs(Run(w, [Turn(i, 0)]), k, f);
    } else {
      forall turns: seq<Turn>
        ensures ClaimedAs(Run(w, turns), k, f)
      {
        RunKeepsFingerprint(w, k, f, turns);
      }
    }
  }

  /** An overtaken put is real: a put and a claim of one key, started over an empty store, can leave the
      claim told unclaimed under one fingerprint and the row stored under the other. */
  lemma OvertakenPutHappens(k: string, f: string, g: string, result: string)
    requires f != g
    ensures var w := World(map[], [PutStart(k, Some(g), result), ClaimStart(k, Some(f))], map[]);
            var z := Run(w, [Turn(0, 1), Turn(1, 2), Turn(0, 3)]);
            && Initial(w)
            && z.procs[1] == ClaimDone(k, Unclaimed(Some(f)))
            && z.rows[k].fingerprint == Some(g)
  {
    var w := World(map[], [PutStart(k, Some(g), result), ClaimStart(k, Some(f))], map[]);
    var t0, t1, t2 := Turn(0, 1), Turn(1, 2), Turn(0, 3);
    var x := Advance(w, t0);
    var y := Advance(x, t1);
    assert [t0, t1, t2][1..] == [t1, t2];
    assert [t1, t2][1..] == [t2];
    assert [t2][1..] == [];
    assert Run(w, [t0, t1, t2]) == Run(x, [t1, t2]) == Run(y, [t2]) == Run(Advance(y, t2), []) == Advance(y, t2);
  }

  /** A claim or put that begins while k is claimed under f and carries another fingerprint is refused,
      and the row is untouched by it. */
  lemma OtherFingerprintRefused(w: World, k: string, f: string, t: Turn)
    requires ClaimedAs(w, k, f) && t.who < |w.procs|
    requires var p := w.procs[t.who];
             (p.ClaimStart? || p.ClaimLookup? || p.PutStart?) && p.key == k
             && p.fingerprint.Some? && p.fingerprint.value != f
    ensures var p, z := w.procs[t.who], Advance(w, t);
            && z.rows == w.rows
            && z.procs[t.who] == (if p.ClaimStart? then ClaimLookup(k, p.fingerprint)
                                  else if p.ClaimLookup? then ClaimDone(k, KeyReuse)
                                  else PutDone(k, false))
  {
  }

  // ---------------------------------------------------------------- from a claim on

  /** The turn is the one in which a claim with the fingerprint fp inserts k. */
  ghost predicate Inserts(w: World, t: Turn, k: string, fp: Option<string>) {
    t.who < |w.procs| && w.procs[t.who] == ClaimStart(k, fp) && k !in w.rows
  }

  /** A claim of an absent key is told unclaimed and leaves a pending row with its own fingerprint and
      its own turn's clock; nothing else changes. */
  lemma ClaimStores(w: World, t: Turn, k: string, fp: Option<string>)
    requires Inserts(w, t, k, fp)
    ensures var z := Advance(w, t);
            && z.rows == w.rows[k := Row(fp, None, t.now)]
            && z.procs == w.procs[t.who := ClaimDone(k, Unclaimed(fp))]
            && (fp.Some? ==> ClaimedAs(z, k, fp.value))
  {
  }

  /** What holds of calls over a store without k: no put of k has read a row. */
  ghost predicate NothingRead(w: World, k: string) {
    k !in w.rows ==> forall i :: 0 <= i < |w.procs| && w.procs[i].key == k && w.procs[i].PutWrite? ==> w.procs[i].existing.None?
  }

  lemma {:induction false} RunKeepsCalls(w: World, k: string, turns: seq<Turn>)
    requires Inv(w, k) && NothingRead(w, k) && PutsSupply(w, k)
    ensures var x := Run(w, turns); Inv(x, k) && NothingRead(x, k) && PutsSupply(x, k) && |x.procs| == |w.procs|
    decreases |turns|
  {
    if turns != [] {
      var t := turns[0];
      var z := Advance(w, t);
      AdvanceInv(w, k, t);
      if t.who < |w.procs| {
        assert forall i :: 0 <= i < |w.procs| && i != t.who ==> z.procs[i] == w.procs[i];
      }
      RunKeepsCalls(z, k, turns[1..]);
    }
  }

  /** How many of the turns are call i's. */
  ghost function TurnsOf(turns: seq<Turn>, i: nat): nat {
    if turns == [] then 0 else (if turns[0].who == i then 1 else 0) + TurnsOf(turns[1..], i)
  }

  /** Call i, of key k and with another fingerprint, while k is claimed: how far its refusal is. */
  lemma {:induction false} RefusedWhileClaimed(w: World, k: string, f: string, i: nat, turns: seq<Turn>)
    requires ClaimedAs(w, k, f) && PutsSupply(w, k) && !OvertakenPut(w, k, f)
    requires i < |w.procs| && w.procs[i].key == k
    requires var p := w.procs[i];
             || ((p.ClaimStart? || p.ClaimLookup? || p.PutStart?) && p.fingerprint.Some? && p.fingerprint.value != f)
             || p == ClaimDone(k, KeyReuse) || p == PutDone(k, false)
    ensures var p, x := w.procs[i], Run(w, turns);
            && i < |x.procs|
            && (p.ClaimStart? && TurnsOf(turns, i) >= 2 ==> x.procs[i] == ClaimDone(k, KeyReuse))
            && (p.ClaimLookup? && TurnsOf(turns, i) >= 1 ==> x.procs[i] == ClaimDone(k, KeyReuse))
            && (p.PutStart? && TurnsOf(turns, i) >= 1 ==> x.procs[i] == PutDone(k, false))
            && (p.ClaimDone? || p.PutDone? ==> x.procs[i] == p)
    decreases |turns|
  {
    hide OvertakenPut, PutsSupply;
    if turns != [] {
      AdvanceKeepsFingerprint(w, k, f, turns[0]);
      RefusedWhileClaimed(Advance(w, turns[0]), k, f, i, turns[1..]);
    }
  }

  /** End to end: over calls that begin on an empty store, when a claim with the fingerprint f inserts k,
      every put of k supplies a fingerprint and none with another one is about to write, then k stays
      claimed under f, and every claim or put of k that begins later with another fingerprint is refused
      as soon as it has had its turns. */
  lemma OtherArgsRefused(w: World, before: seq<Turn>, t: Turn, after: seq<Turn>, k: string, f: string, i: nat)
    requires Initial(w) && PutsSupply(w, k)
    requires Inserts(Run(w, before), t, k, Some(f)) && !OvertakenPut(Run(w, before), k, f)
    requires var x := Run(w, before);
             && i < |x.procs| && (x.procs[i].ClaimStart? || x.procs[i].PutStart?) && x.procs[i].key == k
             && x.procs[i].fingerprint.Some? && x.procs[i].fingerprint.value != f
    ensures var p, z := Run(w, before).procs[i], Run(Advance(Run(w, before), t), after);
            && ClaimedAs(z, k, f) && i < |z.procs|
            && (p.ClaimStart? && TurnsOf(after, i) >= 2 ==> z.procs[i] == ClaimDone(k, KeyReuse))
            && (p.PutStart? && TurnsOf(after, i) >= 1 ==> z.procs[i] == PutDone(k, false))
  {
    RunKeepsCalls(w, k, before);
    var x := Run(w, before);
    var y := Advance(x, t);
    ClaimStores(x, t, k, Some(f));
    assert forall j :: 0 <= j < |x.procs| && j != t.who ==> y.procs[j] == x.procs[j];
    RunKeepsFingerprint(y, k, f, after);
    RefusedWhileClaimed(y, k, f, i, after);
  }

  /** k's row says it was first seen at `at`. */
  ghost predicate FirstSeenAt(w: World, k: string, at: int) {
    k in w.rows && w.rows[k].firstAt == at
  }

  /** A put of k about to write that read the key before the row with this time was there. */
  ghost predicate StalePut(w: World, k: string, at: int) {
    exists i :: 0 <= i < |w.procs| && w.procs[i].PutWrite? && w.procs[i].key == k
                && (w.procs[i].existing.None? || w.procs[i].existing.value.firstAt != at)
  }

  lemma {:induction false} RunKeepsFirstAt(w: World, k: string, at: int, turns: seq<Turn>)
    requires FirstSeenAt(w, k, at) && !StalePut(w, k, at)
    ensures FirstSeenAt(Run(w, turns), k, at)
    decreases |turns|
  {
    if turns != [] {
      var t := turns[0];
      if t.who < |w.procs| {
        assert forall i :: 0 <= i < |w.procs| && i != t.who ==> Advance(w, t).procs[i] == w.procs[i];
      }
      RunKeepsFirstAt(Advance(w, t), k, at, turns[1..]);
    }
  }

  /** The time at which a key was first seen never changes exactly when every put about to write read
      the row that holds it. */
  lemma FirstAtFixedExactly(w: World, k: string, at: int)
    requires FirstSeenAt(w, k, at)
    ensures (forall turns: seq<Turn> :: FirstSeenAt(Run(w, turns), k, at)) <==> !StalePut(w, k, at)
  {
    if StalePut(w, k, at) {
      var i :| 0 <= i < |w.procs| && w.procs[i].PutWrite? && w.procs[i].key == k
               && (w.procs[i].existing.None? || w.procs[i].existing.value.firstAt != at);
      OneTurn(w, Turn(i, at + 1));
      assert !FirstSeenAt(Run(w, [Turn(i, at + 1)]), k, at);
    } else {
      forall turns: seq<Turn>
        ensures FirstSeenAt(Run(w, turns), k, at)
      {
        RunKeepsFirstAt(w, k, at, turns);
      }
    }
  }

  /** From the turn in which a claim inserts k, the stored time is that turn's clock, in every later
      interleaving exactly when no put of k that read it as absent is still about to write. */
  lemma ClaimTimeFixedExactly(w: World, before: seq<Turn>, t: Turn, k: string, fp: Option<string>)
    requires Initial(w) && PutsSupply(w, k) && Inserts(Run(w, before), t, k, fp)
    ensures var x := Run(w, before);
            (forall after: seq<Turn> :: FirstSeenAt(Run(Advance(x, t), after), k, t.now))
            <==> !exists i :: 0 <= i < |x.procs| && x.procs[i].PutWrite? && x.procs[i].key == k
  {
    RunKeepsCalls(w, k, before);
    var x := Run(w, before);
    var y := Advance(x, t);
    ClaimStores(x, t, k, fp);
    assert forall j :: 0 <= j < |x.procs| && j != t.who ==> y.procs[j] == x.procs[j];
    FirstAtFixedExactly(y, k, t.now);
    if exists i :: 0 <= i < |x.procs| && x.procs[i].PutWrite? && x.procs[i].key == k {
      var i :| 0 <= i < |x.procs| && x.procs[i].PutWrite? && x.procs[i].key == k;
      assert y.procs[i] == x.procs[i];
    }
  }

  lemma {:induction false} OthersTurns(w: World, i: nat, turns: seq<Turn>)
    requires i < |w.procs| && TurnsOf(turns, i) == 0
    ensures i < |Run(w, turns).procs| && Run(w, turns).procs[i] == w.procs[i]
    decreases |turns|
  {
    if turns != [] { OthersTurns(Advance(w, turns[0]), i, turns[1..]); }
  }

  /** A put that begins when the key is absent, or is stored under no other fingerprint than its own, is
      accepted whatever happens before its second turn, and then the row is its own: its fingerprint, its
      result, and the time of the row it read, or the present time if it read none. */
  lemma PutEndsStored(w: World, t: Turn, between: seq<Turn>, u: Turn)
    requires t.who < |w.procs| && w.procs[t.who].PutStart?
    requires var p := w.procs[t.who];
             p.key in w.rows && w.rows[p.key].fingerprint.Some? && p.fingerprint.Some?
             ==> w.rows[p.key].fingerprint.value == p.fingerprint.value
    requires TurnsOf(between, t.who) == 0 && u.who == t.who
    ensures var p, z := w.procs[t.who], Advance(Run(Advance(w, t), between), u);
            && t.who < |z.procs| && z.procs[t.who] == PutDone(p.key, true)
            && p.key in z.rows
            && z.rows[p.key] == Row(p.fingerprint, Some(p.result), if p.key in w.rows then w.rows[p.key].firstAt else u.now)
            && p.key in z.lastPut && z.lastPut[p.key] == p.result
  {
    OthersTurns(Advance(w, t), t.who, between);
  }
}
