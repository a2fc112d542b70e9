/** What each call of lib/api-key.js does to the row it meets, and how long a key lasts. */
module ApiKeyCalls {
  import opened Results
  import opened ApiKey

  /** Revocation sets the time of the turn on a row that is there and not revoked, says so, and changes
      nothing else; on any other row it changes nothing and says so. */
  lemma RevokeExactly(row: Option<Row>, env: Env)
    ensures var (after, q) := StepProc(row, RevokeStart, env);
            if row.Some? && row.value.revokedAt.None?
            then after == Some(Row(row.value.secretHash, row.value.secondarySecretHash, row.value.secondaryExpiresAt,
                                   row.value.expiresAt, Some(env.now), row.value.lastUsedAt)) && q == RevokeDone(true)
            else after == row && q == RevokeDone(false)
  {
  }

  /** A purge removes a row exactly when it was revoked or ran out more than the given time ago, and
      changes no row it leaves. */
  lemma PurgeExactly(row: Option<Row>, after: nat, env: Env)
    ensures var (left, q) := StepProc(row, PurgeStart(after), env);
            && q == PurgeDone && (left == row || left == None)
            && (row.Some? ==>
                  (left == None <==> || (row.value.revokedAt.Some? && row.value.revokedAt.value + after < env.now)
                                     || (row.value.expiresAt.Some? && row.value.expiresAt.value + after < env.now)))
            // a key that still works is not purged
            && (Live(row, env.now) ==> left == row)
  {
  }

  /** A rotation whose row is missing or revoked is refused and writes nothing. */
  lemma RotateRefusedExactly(row: Option<Row>, grace: nat, env: Env)
    ensures var (after, q) := StepProc(row, RotateStart(grace), env);
            after == row && q == if row.Some? && row.value.revokedAt.None? then RotateRead(grace, row.value) else RotateDone(false)
  {
  }

  /** How many of the turns are call i's. */
  ghost function TurnsOf(turns: seq<Turn>, i: nat): nat {
    if turns == [] then 0 else (if turns[0].who == i then 1 else 0) + TurnsOf(turns[1..], i)
  }

  lemma {:induction false} OthersTurns(s: System, i: nat, turns: seq<Turn>)
    requires i < |s.procs| && TurnsOf(turns, i) == 0
    ensures i < |Run(s, turns).procs| && Run(s, turns).procs[i] == s.procs[i]
    decreases |turns|
  {
    if turns != [] { OthersTurns(Advance(s, turns[0]), i, turns[1..]); }
  }

  /** A rotation that begins on a row in force ends accepted whatever runs between its two turns. If the
      row is still there it then holds the new secret; the secret the row held when the rotation began is
      the secondary one until the end of the grace, if there is a grace, and there is no secondary one
      otherwise; the row's other fields are as they were just before. */
  lemma RotateEnds(s: System, t: Turn, between: seq<Turn>, u: Turn)
    requires t.who < |s.procs| && s.procs[t.who].RotateStart? && s.row.Some? && s.row.value.revokedAt.None?
    requires TurnsOf(between, t.who) == 0 && u.who == t.who
    ensures var grace, y := s.procs[t.who].gracePeriodMs, Run(Advance(s, t), between);
            var z := Advance(y, u);
            && t.who < |z.procs| && z.procs[t.who] == RotateDone(true)
            && (y.row.None? ==> z.row.None?)
            && (y.row.Some? ==>
                  var r := y.row.value;
                  z.row == Some(Row(Hash(u.env.newSecret, u.env.salt),
                                    if grace == 0 then None else Some(s.row.value.secretHash),
                                    if grace == 0 then None else Some(u.env.now + grace),
                                    r.expiresAt, r.revokedAt, r.lastUsedAt)))
  {
    OthersTurns(Advance(s, t), t.who, between);
  }

  /** An accepting verify writes back only as leader: the time of its decision if use is tracked, and a
      fresh hash of the very secret it was given if that is the primary one and its hash is outdated. */
  lemma VerifyWritesExactly(row: Option<Row>, secret: string, found: Row, env: Env)
    requires Accepts(Some(found), secret, env.now)
    ensures var (after, q) := StepProc(row, VerifyRead(secret, Some(found)), env);
            var renew := env.leader && env.needsRehash && found.secretHash.secret == secret;
            && after == row
            && q == (if (env.leader && env.trackLastUsedAt) || renew
                     then VerifyWrite(secret, found, env.now, env.leader && env.trackLastUsedAt,
                                      if renew then Some(Hash(secret, env.salt)) else None)
                     else VerifyDone(secret, true))
  {
  }

  /** The write takes place unless the row is gone, or it carries a hash and the stored hash is no longer
      the one that was read; it touches the two fields at most. */
  lemma WriteExactly(row: Option<Row>, secret: string, seen: Row, now: int, touch: bool, rehash: Option<Hash>, env: Env)
    ensures var (after, q) := StepProc(row, VerifyWrite(secret, seen, now, touch, rehash), env);
            && q == VerifyDone(secret, true)
            && (row.None? || (rehash.Some? && row.value.secretHash != seen.secretHash) ==> after == row)
            && (row.Some? && (rehash.None? || row.value.secretHash == seen.secretHash) ==>
                  after == Some(Row(if rehash.Some? then rehash.value else row.value.secretHash,
                                    row.value.secondarySecretHash, row.value.secondaryExpiresAt, row.value.expiresAt, row.value.revokedAt,
                                    if touch then Some(now) else row.value.lastUsedAt)))
  {
  }

  // ---------------------------------------------------------------- a key that nobody revokes

  ghost predicate NoRevoke(s: System) {
    forall i :: 0 <= i < |s.procs| ==> !s.procs[i].RevokeStart?
  }

  /** The row is there, not revoked and without an end. */
  ghost predicate Lasting(row: Option<Row>) {
    row.Some? && row.value.revokedAt.None? && row.value.expiresAt.None?
  }

  ghost predicate ReadsLasting(s: System) {
    forall i :: 0 <= i < |s.procs| && s.procs[i].VerifyRead? ==> Lasting(s.procs[i].found)
  }

  lemma {:induction false} LastsOn(s: System, turns: seq<Turn>)
    requires Lasting(s.row) && NoRevoke(s) && ReadsLasting(s)
    ensures var x := Run(s, turns); Lasting(x.row) && NoRevoke(x) && ReadsLasting(x)
    decreases |turns|
  {
    if turns != [] {
      var t := turns[0];
      if t.who < |s.procs| {
        assert forall i :: 0 <= i < |s.procs| && i != t.who ==> Advance(s, t).procs[i] == s.procs[i];
      }
      LastsOn(Advance(s, t), turns[1..]);
    }
  }

  /** A key issued without an end that no call revokes is there for good: in every interleaving of
      verifies, rotations and purges the row stays in force, and every verify accepts the secret that was
      the current one when it read the row. */
  lemma CurrentSecretAccepted(s: System, turns: seq<Turn>, t: Turn)
    requires Initial(s) && FairRun(s, turns) && NoRevoke(s) && Lasting(s.row)
    ensures Lasting(Run(s, turns).row)
    ensures var x := Run(s, turns);
            t.who < |x.procs| && x.procs[t.who].VerifyRead? ==>
              && t.who in x.asOf
              && (x.procs[t.who].secret == x.asOf[t.who].current ==>
                    Advance(x, t).procs[t.who] != VerifyDone(x.procs[t.who].secret, false))
  {
    LastsOn(s, turns);
    var x := Run(s, turns);
    if t.who < |x.procs| && x.procs[t.who].VerifyRead? {
      VerifyExactly(s, turns, t);
      assert Lasting(x.procs[t.who].found);
    }
  }
}
