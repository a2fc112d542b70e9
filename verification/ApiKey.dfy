/**
 The life of one API key row (lib/api-key.js): verify with its conditional rehash write, rotate,
 revoke and purge, interleaved at every database access. Credential hashes are ideal: a hash
 accepts exactly the secret it was made from.
 */
module ApiKey {
  import opened Results

  datatype Hash = Hash(secret: string, salt: int)

  datatype Row = Row(
    secretHash: Hash, secondarySecretHash: Option<Hash>, secondaryExpiresAt: Option<int>,
    expiresAt: Option<int>, revokedAt: Option<int>, lastUsedAt: Option<int>)

  /** A call, by the database access it is about to make or the answer it gave. */
  datatype Proc =
    | VerifyStart(secret: string)
    | VerifyRead(secret: string, found: Option<Row>)
    | VerifyWrite(secret: string, seen: Row, now: int, touch: bool, rehash: Option<Hash>)
    | VerifyDone(secret: string, accepted: bool)
    | RotateStart(gracePeriodMs: nat)
    | RotateRead(gracePeriodMs: nat, existing: Row)
    | RotateDone(ok: bool)
    | RevokeStart
    | RevokeDone(changed: bool)
    | PurgeStart(purgeAfterMs: nat)
    | PurgeDone

  /** What one turn takes from outside: the clock, leadership and tracking, whether the stored hash is
      outdated, and the randomness of a new hash or secret. */
  datatype Env = Env(now: int, leader: bool, trackLastUsedAt: bool, needsRehash: bool, salt: int, newSecret: string)

  // ---------------------------------------------------------------- decisions

  predicate Matches(secret: string, h: Hash) {
    h.secret == secret
  }

  function PrimaryMatch(row: Row, secret: string): bool {
    Matches(secret, row.secretHash)
  }

  function SecondaryMatch(row: Row, secret: string, now: int): bool {
    row.secondarySecretHash.Some? && row.secondaryExpiresAt.Some? && row.secondaryExpiresAt.value >= now &&
    Matches(secret, row.secondarySecretHash.value)
  }

  /** `verify` on the row it read. */
  predicate Accepts(seen: Option<Row>, secret: string, now: int) {
    && seen.Some?
    && seen.value.revokedAt.None?
    && !(seen.value.expiresAt.Some? && seen.value.expiresAt.value < now)
    && (PrimaryMatch(seen.value, secret) || SecondaryMatch(seen.value, secret, now))
  }

  predicate Purgeable(row: Row, threshold: int) {
    (row.revokedAt.Some? && row.revokedAt.value < threshold) || (row.expiresAt.Some? && row.expiresAt.value < threshold)
  }

  function Rotated(row: Row, grace: nat, existing: Row, env: Env): Row {
    if grace > 0 then
      row.(secretHash := Hash(env.newSecret, env.salt), secondarySecretHash := Some(existing.secretHash),
           secondaryExpiresAt := Some(env.now + grace))
    else row.(secretHash := Hash(env.newSecret, env.salt), secondarySecretHash := None, secondaryExpiresAt := None)
  }

  /** The row and the call after one piece, up to and including the call's next database access. */
  function StepProc(row: Option<Row>, p: Proc, env: Env): (Option<Row>, Proc) {
    match p
    case VerifyStart(secret) => (row, VerifyRead(secret, row))
    case VerifyRead(secret, found) =>
      if !Accepts(found, secret, env.now) then (row, VerifyDone(secret, false))
      else
        var rehash := if env.leader && env.needsRehash && PrimaryMatch(found.value, secret) then Some(Hash(secret, env.salt)) else None;
        var touch := env.leader && env.trackLastUsedAt;
        if touch || rehash.Some? then (row, VerifyWrite(secret, found.value, env.now, touch, rehash))
        else (row, VerifyDone(secret, true))
    case VerifyWrite(secret, seen, now, touch, rehash) =>
      // UPDATE ... WHERE id = ? [AND secretHash = ?]
      (if row.Some? && (rehash.Some? ==> row.value.secretHash == seen.secretHash)
       then Some(row.value.(lastUsedAt := if touch then Some(now) else row.value.lastUsedAt,
                            secretHash := if rehash.Some? then rehash.value else row.value.secretHash))
       else row,
       VerifyDone(secret, true))
    case RotateStart(grace) =>
      if row.None? || row.value.revokedAt.Some? then (row, RotateDone(false)) else (row, RotateRead(grace, row.value))
    case RotateRead(grace, existing) =>
      (if row.Some? then Some(Rotated(row.value, grace, existing, env)) else None, RotateDone(true))
    case RevokeStart =>
      if row.Some? && row.value.revokedAt.None? then (Some(row.value.(revokedAt := Some(env.now))), RevokeDone(true))
      else (row, RevokeDone(false))
    case PurgeStart(after) =>
      (if row.Some? && Purgeable(row.value, env.now - after) then None else row, PurgeDone)
    case VerifyDone(_, _) => (row, p)
    case RotateDone(_) => (row, p)
    case RevokeDone(_) => (row, p)
    case PurgeDone => (row, p)
  }

  function IssuedRow(secret: string, salt: int, expiresAt: Option<int>): Row {
    Row(Hash(secret, salt), None, None, expiresAt, None, None)
  }

  /** The table, reduced to the row of one key. */
  class Table {
    var row: Option<Row>

    /** `issue` */
    constructor (secret: string, salt: int, expiresAt: Option<int>)
      ensures row == Some(IssuedRow(secret, salt, expiresAt))
    {
      row := Some(Row(Hash(secret, salt), None, None, expiresAt, None, None));
    }

    /** `verify` after its read: the checks in order, and the write it will make. */
    method Decide(secret: string, found: Option<Row>, env: Env) returns (q: Proc)
      ensures q == StepProc(row, VerifyRead(secret, found), env).1
    {
      if found.None? { return VerifyDone(secret, false); }
      var r := found.value;
      if r.revokedAt.Some? { return VerifyDone(secret, false); }
      if r.expiresAt.Some? && r.expiresAt.value < env.now { return VerifyDone(secret, false); }
      var primaryMatch := Matches(secret, r.secretHash);
      var secondaryMatch := false;
      var secondaryActive := r.secondarySecretHash.Some? && r.secondaryExpiresAt.Some? && r.secondaryExpiresAt.value >= env.now;
      if !primaryMatch && secondaryActive { secondaryMatch := Matches(secret, r.secondarySecretHash.value); }
      if !primaryMatch && !secondaryMatch { return VerifyDone(secret, false); }
      if env.leader {
        var rehash: Option<Hash> := None;
        if primaryMatch && env.needsRehash { rehash := Some(Hash(secret, env.salt)); }
        if env.trackLastUsedAt || rehash.Some? { return VerifyWrite(secret, r, env.now, env.trackLastUsedAt, rehash); }
      }
      q := VerifyDone(secret, true);
    }

    method Resume(p: Proc, env: Env) returns (q: Proc)
      modifies this
      ensures (row, q) == StepProc(old(row), p, env)
    {
      match p {
        case VerifyStart(secret) => q := VerifyRead(secret, row);
        case VerifyRead(secret, found) => q := Decide(secret, found, env);
        case VerifyWrite(secret, seen, now, touch, rehash) =>
          if row.Some? && (rehash.None? || row.value.secretHash == seen.secretHash) {
            var r := row.value;
            if touch { r := r.(lastUsedAt := Some(now)); }
            if rehash.Some? { r := r.(secretHash := rehash.value); }
            row := Some(r);
          }
          q := VerifyDone(secret, true);
        case RotateStart(grace) =>
          if row.None? { return RotateDone(false); }
          if row.value.revokedAt.Some? { return RotateDone(false); }
          q := RotateRead(grace, row.value);
        case RotateRead(grace, existing) =>
          if row.Some? {
            var newHash := Hash(env.newSecret, env.salt);
            if grace > 0 {
              row := Some(row.value.(secretHash := newHash, secondarySecretHash := Some(existing.secretHash),
                                     secondaryExpiresAt := Some(env.now + grace)));
            } else {
              row := Some(row.value.(secretHash := newHash, secondarySecretHash := None, secondaryExpiresAt := None));
            }
          }
          q := RotateDone(true);
        case RevokeStart =>
          if row.Some? && row.value.revokedAt.None? {
            row := Some(row.value.(revokedAt := Some(env.now)));
            return RevokeDone(true);
          }
          q := RevokeDone(false);
        case PurgeStart(after) =>
          if row.Some? && Purgeable(row.value, env.now - after) { row := None; }
          q := PurgeDone;
        case VerifyDone(_, _) => q := p;
        case RotateDone(_) => q := p;
        case RevokeDone(_) => q := p;
        case PurgeDone => q := p;
      }
    }
  }

  // ---------------------------------------------------------------- interleavings

  /** Which secrets were ever valid: the current one, the previous one while its grace runs, and the
      ones that are out. Nothing stores this; it records what the rotations did. */
  datatype Ledger = Ledger(current: string, previous: Option<(string, int)>, retired: set<string>)

  /** The row, the calls in flight, the ledger, and the ledger at the moment each verify read the row. */
  datatype System = System(row: Option<Row>, procs: seq<Proc>, ledger: Ledger, asOf: map<nat, Ledger>)

  datatype Turn = Turn(who: nat, env: Env)

  ghost function AfterRotation(l: Ledger, grace: nat, env: Env): Ledger {
    Ledger(env.newSecret,
           if grace > 0 then Some((l.current, env.now + grace)) else None,
           l.retired + (if grace > 0 then {} else {l.current}) + (if l.previous.Some? then {l.previous.value.0} else {}))
  }

  ghost function Advance(s: System, t: Turn): System {
    if t.who >= |s.procs| then s
    else
      var p := s.procs[t.who];
      var (row, q) := StepProc(s.row, p, t.env);
      System(row, s.procs[t.who := q],
             if p.RotateRead? then AfterRotation(s.ledger, p.gracePeriodMs, t.env) else s.ledger,
             if p.VerifyStart? then s.asOf[t.who := s.ledger] else s.asOf)
  }

  ghost function Run(s: System, turns: seq<Turn>): System
    decreases |turns|
  {
    if turns == [] then s else Run(Advance(s, turns[0]), turns[1..])
  }

  ghost function Known(l: Ledger): set<string> {
    {l.current} + l.retired + (if l.previous.Some? then {l.previous.value.0} else {})
  }

  /** Rotations of the key do not overlap, and a rotation's new secret was never used before. */
  ghost predicate Fair(s: System, t: Turn) {
    t.who < |s.procs| ==>
      && (s.procs[t.who].RotateStart? ==> forall i :: 0 <= i < |s.procs| ==> !s.procs[i].RotateRead?)
      && (s.procs[t.who].RotateRead? ==> t.env.newSecret !in Known(s.ledger))
  }

  ghost predicate FairRun(s: System, turns: seq<Turn>)
    decreases |turns|
  {
    turns == [] || (Fair(s, turns[0]) && FairRun(Advance(s, turns[0]), turns[1..]))
  }

  /** Calls that have not begun, on a key just issued. */
  ghost predicate Initial(s: System) {
    && (exists secret: string, salt: int, expiresAt: Option<int> ::
          s.row == Some(IssuedRow(secret, salt, expiresAt)) && s.ledger == Ledger(secret, None, {}))
    && forall i :: 0 <= i < |s.procs| ==>
         s.procs[i].VerifyStart? || s.procs[i].RotateStart? || s.procs[i].RevokeStart? || s.procs[i].PurgeStart?
  }

  /** A row says what the ledger says. */
  ghost predicate Reflects(row: Option<Row>, l: Ledger) {
    row.Some? ==>
      && row.value.secretHash.secret == l.current
      && (if l.previous.Some? then
            && row.value.secondarySecretHash.Some? && row.value.secondarySecretHash.value.secret == l.previous.value.0
            && row.value.secondaryExpiresAt == Some(l.previous.value.1)
          else row.value.secondarySecretHash.None? && row.value.secondaryExpiresAt.None?)
  }

  /** No secret is both in and out. */
  ghost predicate Apart(l: Ledger) {
    && l.current !in l.retired
    && (l.previous.Some? ==> l.previous.value.0 != l.current && l.previous.value.0 !in l.retired)
  }

  ghost predicate ProcOk(s: System, i: nat)
    requires i < |s.procs|
  {
    match s.procs[i]
    case VerifyRead(_, found) => i in s.asOf && Reflects(found, s.asOf[i]) && Apart(s.asOf[i])
    case VerifyWrite(_, seen, _, _, rehash) => rehash.Some? ==> rehash.value.secret == seen.secretHash.secret
    case RotateRead(_, existing) => s.row.Some? ==> existing.secretHash.secret == s.ledger.current
    case _ => true
  }

  ghost predicate Inv(s: System) {
    && Reflects(s.row, s.ledger) && Apart(s.ledger)
    && (forall i :: 0 <= i < |s.procs| ==> ProcOk(s, i))
    && (forall i, j :: 0 <= i < j < |s.procs| ==> !(s.procs[i].RotateRead? && s.procs[j].RotateRead?))
  }

  lemma AdvanceInv(s: System, t: Turn)
    requires Inv(s) && Fair(s, t)
    ensures Inv(Advance(s, t))
  {
    if t.who < |s.procs| {
      var z := Advance(s, t);
      assert ProcOk(s, t.who);
      forall i | 0 <= i < |z.procs|
        ensures ProcOk(z, i)
      {
        if i != t.who { assert ProcOk(s, i); assert z.procs[i] == s.procs[i]; }
      }
    }
  }

  lemma {:induction false} RunInv(s: System, turns: seq<Turn>)
    requires Inv(s) && FairRun(s, turns)
    ensures Inv(Run(s, turns))
    decreases |turns|
  {
    if turns != [] {
      AdvanceInv(s, turns[0]);
      RunInv(Advance(s, turns[0]), turns[1..]);
    }
  }

  /** The secrets the ledger honours at a given time. */
  ghost predicate Honours(l: Ledger, secret: string, now: int) {
    secret == l.current || (l.previous.Some? && l.previous.value.0 == secret && now <= l.previous.value.1)
  }

  ghost predicate Live(row: Option<Row>, now: int) {
    row.Some? && row.value.revokedAt.None? && !(row.value.expiresAt.Some? && row.value.expiresAt.value < now)
  }

  /** In every interleaving, a verify accepts exactly when the row it read was there, not revoked and
      not expired, and its secret was the current one when it read, or the previous one within its
      grace. In-flight rehash writes never change this. */
  lemma VerifyExactly(s: System, turns: seq<Turn>, t: Turn)
    requires Initial(s) && FairRun(s, turns)
    requires var x := Run(s, turns); t.who < |x.procs| && x.procs[t.who].VerifyRead?
    ensures var x := Run(s, turns);
            var p, q := x.procs[t.who], Advance(x, t).procs[t.who];
            && t.who in x.asOf
            && (q.VerifyWrite? || q.VerifyDone?)
            && (q == VerifyDone(p.secret, false) <==> !(Live(p.found, t.env.now) && Honours(x.asOf[t.who], p.secret, t.env.now)))
  {
    RunInv(s, turns);
    var x := Run(s, turns);
    assert ProcOk(x, t.who);
  }

  // ---------------------------------------------------------------- what is out stays out

  /** Rotated out, and the grace, if any, does not reach `now`. */
  ghost predicate OutAt(l: Ledger, secret: string, now: int) {
    secret in l.retired || (l.previous.Some? && l.previous.value.0 == secret && l.previous.value.1 < now)
  }

  /** Out at `now` or at any later time, until used again, which never happens. */
  lemma {:induction false} RunStaysOut(s: System, turns: seq<Turn>, secret: string, now: int)
    requires Inv(s) && FairRun(s, turns) && OutAt(s.ledger, secret, now)
    ensures OutAt(Run(s, turns).ledger, secret, now)
    decreases |turns|
  {
    if turns != [] {
      AdvanceInv(s, turns[0]);
      RunStaysOut(Advance(s, turns[0]), turns[1..], secret, now);
    }
  }

  lemma OutIsRefused(l: Ledger, secret: string, now: int)
    requires Apart(l) && OutAt(l, secret, now)
    ensures !Honours(l, secret, now)
  {
  }

  /** A verify that has not read the row yet reads it at some later turn, with the ledger of then. */
  ghost predicate Unread(s: System, who: nat) {
    who < |s.procs| && s.procs[who].VerifyStart?
  }

  lemma {:induction false} ReadsLater(s: System, turns: seq<Turn>, who: nat, secret: string, now: int)
    requires Inv(s) && FairRun(s, turns) && OutAt(s.ledger, secret, now) && who < |s.procs|
    requires Unread(s, who) || (who in s.asOf && OutAt(s.asOf[who], secret, now))
    ensures var x := Run(s, turns); Unread(x, who) || (who in x.asOf && OutAt(x.asOf[who], secret, now))
    ensures |Run(s, turns).procs| == |s.procs|
    decreases |turns|
  {
    if turns != [] {
      AdvanceInv(s, turns[0]);
      RunStaysOut(s, [turns[0]], secret, now) by { assert [turns[0]][1..] == []; }
      assert Run(s, [turns[0]]) == Run(Advance(s, turns[0]), []) by { assert [turns[0]][1..] == []; }
      ReadsLater(Advance(s, turns[0]), turns[1..], who, secret, now);
    }
  }

  /** Rotation safety: once a secret is out at `now`, by a cutover or because its grace ended before
      `now`, every verify that reads the row afterwards and decides at `now` or later rejects it, in
      every interleaving with rotations, rehashes, revocations and purges. */
  lemma RotatedOutRejected(s: System, before: seq<Turn>, after: seq<Turn>, t: Turn, now: int)
    requires Initial(s) && FairRun(s, before)
    requires var x := Run(s, before); Unread(x, t.who) && FairRun(x, after)
    requires var x := Run(s, before); var y := Run(x, after);
             t.who < |y.procs| && y.procs[t.who].VerifyRead? && OutAt(x.ledger, y.procs[t.who].secret, now) && now <= t.env.now
    ensures var y := Run(Run(s, before), after);
            Advance(y, t).procs[t.who] == VerifyDone(y.procs[t.who].secret, false)
  {
    var x := Run(s, before);
    var y := Run(x, after);
    var secret := y.procs[t.who].secret;
    RunInv(s, before);
    RunInv(x, after);
    ReadsLater(x, after, t.who, secret, now);
    assert ProcOk(y, t.who);
    OutIsRefused(y.asOf[t.who], secret, t.env.now);
  }

  /** A cutover puts the current and the previous secret out at once; a graceful rotation puts the
      current one out after its deadline. */
  lemma RotationPutsOut(s: System, t: Turn, now: int)
    requires Inv(s) && Fair(s, t) && t.who < |s.procs| && s.procs[t.who].RotateRead?
    ensures var l, m, grace := s.ledger, Advance(s, t).ledger, s.procs[t.who].gracePeriodMs;
            && m.current == t.env.newSecret
            && (l.previous.Some? ==> OutAt(m, l.previous.value.0, now))
            && (OutAt(m, l.current, now) <==> grace == 0 || now > t.env.now + grace)
  {
  }

  // ---------------------------------------------------------------- revocation

  ghost predicate Dead(row: Option<Row>) {
    row.Some? ==> row.value.revokedAt.Some?
  }

  lemma {:induction false} StaysDead(s: System, turns: seq<Turn>, who: nat)
    requires Dead(s.row) && who < |s.procs|
    requires Unread(s, who) || (s.procs[who].VerifyRead? ==> Dead(s.procs[who].found))
    requires s.procs[who].VerifyStart? || s.procs[who].VerifyRead?
    ensures var x := Run(s, turns);
            && Dead(x.row) && |x.procs| == |s.procs|
            && (x.procs[who].VerifyStart? || (x.procs[who].VerifyRead? && Dead(x.procs[who].found))
                || (x.procs[who].VerifyDone? && !x.procs[who].accepted))
    decreases |turns|
  {
    if turns != [] {
      var z := Advance(s, turns[0]);
      if z.procs[who].VerifyDone? {
        DoneStays(z, turns[1..], who);
        DeadStays(z, turns[1..]);
      } else {
        StaysDead(z, turns[1..], who);
      }
    }
  }

  lemma {:induction false} DoneStays(s: System, turns: seq<Turn>, who: nat)
    requires who < |s.procs| && s.procs[who].VerifyDone?
    ensures |Run(s, turns).procs| == |s.procs| && Run(s, turns).procs[who] == s.procs[who]
    decreases |turns|
  {
    if turns != [] { DoneStays(Advance(s, turns[0]), turns[1..], who); }
  }

  lemma {:induction false} DeadStays(s: System, turns: seq<Turn>)
    requires Dead(s.row)
    ensures Dead(Run(s, turns).row)
    decreases |turns|
  {
    if turns != [] { DeadStays(Advance(s, turns[0]), turns[1..]); }
  }

  lemma DeadRejectsAll(s: System, turns: seq<Turn>, who: nat)
    requires Dead(s.row) && Unread(s, who)
    ensures var p := Run(s, turns).procs; who < |p| && !p[who].VerifyWrite? && (p[who].VerifyDone? ==> !p[who].accepted)
  {
    StaysDead(s, turns, who);
  }

  /** A verify whose read follows a revocation never accepts, whatever secret it carries and whatever
      runs beside it: a rotation or a rehash already in flight does not bring the key back. */
  lemma RevokedRejectsAll(s: System, revoke: Turn, turns: seq<Turn>, who: nat)
    requires revoke.who < |s.procs| && s.procs[revoke.who].RevokeStart? && Unread(s, who)
    ensures var p := Run(Advance(s, revoke), turns).procs;
            who < |p| && !p[who].VerifyWrite? && (p[who].VerifyDone? ==> !p[who].accepted)
  {
    DeadRejectsAll(Advance(s, revoke), turns, who);
  }
}
