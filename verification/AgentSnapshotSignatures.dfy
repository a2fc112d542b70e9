/**
 Whose signature a stored snapshot needs (lib/agent-snapshot.js): when a row loads, when the attempt
 aborts, and what that makes of re-signing, said of the row as it is stored.
 */
module AgentSnapshotSignatures {
  import opened Results
  import opened AgentSnapshot

  // ---------------------------------------------------------------- one row

  /** The row's envelope can be got at: it is there in the open, or the wired vault sealed it, for this
      row id and for the schema version the wrapper names, 1 when it names none. */
  ghost predicate Opens(ctx: Ctx, raw: Raw) {
    raw.Sealed? ==>
      && ctx.sealer == Some(raw.blob.vault)
      && raw.blob.aad.rowId == raw.snapshotId
      && raw.blob.aad.schemaVersion == (match raw.schemaVersion case None => 1 case Some(v) => if v == 0 then 1 else v)
  }

  /** The wrapper says of the envelope what the envelope says of itself. */
  ghost predicate FieldsAgree(raw: Raw, id: string) {
    && Inner(raw).body.snapshotId == id
    && (raw.Sealed? ==> raw.tenantId == Inner(raw).body.tenantId && raw.takenAt == Inner(raw).body.takenAt)
  }

  /** Plaintext rows may be read here. */
  ghost predicate PlaintextOk(ctx: Ctx) {
    ctx.allowPlaintext && !ctx.regulated
  }

  /** No key is recorded, or one that is not known to be compromised and can be read. */
  ghost predicate RecordedKeyFine(ctx: Ctx, snap: Snap) {
    snap.sigPubKey == None || snap.sigPubKey == Some("")
    || ctx.readKey(snap.sigPubKey.value) == Clean || ctx.readKey(snap.sigPubKey.value) == Absent
  }

  /** The envelope carries this key's signature over its own body. */
  ghost predicate SignedBy(raw: Raw, key: string) {
    Inner(raw).sig == Some(Signature(key, Inner(raw).body))
  }

  /** Everything but the signature is in order. */
  ghost predicate Presentable(ctx: Ctx, raw: Raw, id: string) {
    Opens(ctx, raw) && ctx.guard(Inner(raw)) && FieldsAgree(raw, id)
  }

  /** The key under which the context's signer takes this envelope. */
  ghost predicate SignerTakes(ctx: Ctx, raw: Raw) {
    match ctx.signer
    case AuditSign(key) =>
      SignedBy(raw, key) && (Inner(raw).sigPubKey == None || Inner(raw).sigPubKey == Some("") || Inner(raw).sigPubKey == Some(key))
    case Operator(key, true) => SignedBy(raw, key)
    case Operator(key, false) =>
      if Inner(raw).sigPubKey == None || Inner(raw).sigPubKey == Some("") then SignedBy(raw, key)
      else SignedBy(raw, Inner(raw).sigPubKey.value)
  }

  /** A signed row loads under the previous key exactly when it is in order, its recorded key is usable,
      it carries that key's signature over its body, and it is sealed or plaintext may be read. */
  lemma LoadsUnderKeyExactly(ctx: Ctx, raw: Raw, id: string, previous: string)
    requires Inner(raw).sig.Some?
    ensures TryLoad(ctx, raw, id, Some(previous)) == Loaded(Inner(raw))
       <==> Presentable(ctx, raw, id) && RecordedKeyFine(ctx, Inner(raw)) && SignedBy(raw, previous)
            && (raw.Sealed? || PlaintextOk(ctx))
    ensures TryLoad(ctx, raw, id, Some(previous)).Loaded? ==> TryLoad(ctx, raw, id, Some(previous)).snap == Inner(raw)
  {
  }

  /** An operator's key that is exposed is known to be compromised or cannot be read. */
  ghost predicate SignerKeyBad(ctx: Ctx) {
    && ctx.signer.Operator? && ctx.signer.exposesKey && ctx.signer.key != ""
    && (ctx.readKey(ctx.signer.key) == Compromised || ctx.readKey(ctx.signer.key) == Unreadable)
  }

  /** The same under the current signer, of each kind. */
  lemma LoadsNowExactly(ctx: Ctx, raw: Raw, id: string)
    requires Inner(raw).sig.Some?
    ensures TryLoad(ctx, raw, id, None) == Loaded(Inner(raw))
       <==> Presentable(ctx, raw, id) && !SignerKeyBad(ctx) && RecordedKeyFine(ctx, Inner(raw)) && SignerTakes(ctx, raw)
            && (raw.Sealed? || PlaintextOk(ctx))
    ensures TryLoad(ctx, raw, id, None).Loaded? ==> TryLoad(ctx, raw, id, None).snap == Inner(raw)
  {
  }

  /** An unsigned row loads, sealed or not, exactly when it is in order and plaintext may be read, and
      then under every key. */
  lemma UnsignedLoadsExactly(ctx: Ctx, raw: Raw, id: string, pinned: Option<string>)
    requires Inner(raw).sig.None?
    ensures TryLoad(ctx, raw, id, pinned) == Loaded(Inner(raw)) <==> Presentable(ctx, raw, id) && PlaintextOk(ctx)
    ensures TryLoad(ctx, raw, id, pinned).Loaded? ==> TryLoad(ctx, raw, id, pinned).snap == Inner(raw)
  {
  }

  /** A load aborts, instead of finding the row not loadable, in three cases: a sealed row and no sealer,
      an envelope the guard refuses, and a signer whose own key is not usable. */
  lemma AbortsExactly(ctx: Ctx, raw: Raw, id: string, pinned: Option<string>)
    ensures TryLoad(ctx, raw, id, pinned) == Aborted(SealerNotWired)
       <==> raw.Sealed? && ctx.sealer.None? && !(ctx.allowPlaintext && ctx.regulated)
    ensures TryLoad(ctx, raw, id, pinned) == Aborted(GuardFailed) <==> Opens(ctx, raw) && !ctx.guard(Inner(raw))
    ensures TryLoad(ctx, raw, id, pinned) == Aborted(SignerKeyUnusable)
       <==> Presentable(ctx, raw, id) && Inner(raw).sig.Some? && pinned.None? && SignerKeyBad(ctx)
    ensures var load := TryLoad(ctx, raw, id, pinned);
            load.Aborted? ==> load.why == SealerNotWired || load.why == GuardFailed || load.why == SignerKeyUnusable
  {
  }

  /** What is stored for an envelope, and the first objection to storing it: the guard's, the signer's
      key, no place to store it, a posture that forbids plaintext, the size. */
  lemma PersistsExactly(ctx: Ctx, snap: Snap)
    ensures var r, key := Persisted(ctx, snap), if ctx.signer.Operator? && !ctx.signer.exposesKey then None else Some(ctx.signer.key);
            var signed := Snap(snap.body, Some(Signature(ctx.signer.key, snap.body)), key);
            var keyBad := key.Some? && key.value != "" && (ctx.readKey(key.value) == Compromised || ctx.readKey(key.value) == Unreadable);
            if !ctx.guard(snap) then r == Err(GuardFailed)
            else if keyBad then r == Err(SignerKeyUnusable)
            else if ctx.sealer.None? && !ctx.allowPlaintext then r == Err(SealerNotWired)
            else if ctx.sealer.None? && ctx.regulated then r == Err(PostureRefused)
            else if !ctx.fits(signed) then r == Err(Oversize)
            else
              var b := snap.body;
              r == Ok(match ctx.sealer
                      case None => Plain(signed)
                      case Some(vault) =>
                        Sealed(b.snapshotId, b.takenAt, b.tenantId, None,
                               Blob(signed, Aad(b.snapshotId, if b.schemaVersion == 0 then 1 else b.schemaVersion), vault)))
  {
  }

  // ---------------------------------------------------------------- re-signing

  /** A row the current signer takes as it is. */
  ghost predicate IsCurrent(ctx: Ctx, raw: Raw, id: string) {
    && Opens(ctx, raw) && FieldsAgree(raw, id)
    && if Inner(raw).sig.None? then PlaintextOk(ctx)
       else RecordedKeyFine(ctx, Inner(raw)) && SignerTakes(ctx, raw) && (raw.Sealed? || PlaintextOk(ctx))
  }

  /** A row that is not current and carries the previous key's signature over its body. */
  ghost predicate IsPrevious(ctx: Ctx, previous: string, raw: Raw, id: string) {
    && !IsCurrent(ctx, raw, id)
    && Opens(ctx, raw) && FieldsAgree(raw, id) && RecordedKeyFine(ctx, Inner(raw))
    && SignedBy(raw, previous) && (raw.Sealed? || PlaintextOk(ctx))
  }

  /** The row re-signing stores: the same body under the current signer's signature, sealed in the wired
      vault for its own id and schema version, or in the open when no sealer is wired. */
  ghost function Renewed(ctx: Ctx, raw: Raw): Raw {
    var body := Inner(raw).body;
    var key := if ctx.signer.Operator? && !ctx.signer.exposesKey then None else Some(ctx.signer.key);
    var snap := Snap(body, Some(Signature(ctx.signer.key, body)), key);
    match ctx.sealer
    case None => Plain(snap)
    case Some(vault) =>
      Sealed(body.snapshotId, body.takenAt, body.tenantId, None, Blob(snap, Aad(body.snapshotId, body.schemaVersion), vault))
  }

  lemma HealthySigner(ctx: Ctx, rows: Rows)
    requires Healthy(ctx, rows)
    ensures !SignerKeyBad(ctx)
    ensures forall id :: id in rows ==> ctx.guard(Inner(rows[id])) && Inner(rows[id]).body.schemaVersion != 0
  {
  }

  lemma LoadsNowMeans(ctx: Ctx, rows: Rows, id: string)
    requires Healthy(ctx, rows) && id in rows
    ensures LoadsNow(ctx, rows, id) <==> IsCurrent(ctx, rows[id], id)
  {
    hide TryLoad, Healthy, Opens, FieldsAgree, PlaintextOk, RecordedKeyFine, SignerTakes, Inner, SignerKeyBad;
    HealthySigner(ctx, rows);
    var raw := rows[id];
    if Inner(raw).sig.None? {
      UnsignedLoadsExactly(ctx, raw, id, None);
    } else {
      LoadsNowExactly(ctx, raw, id);
    }
  }

  lemma LoadsUnderMeans(ctx: Ctx, rows: Rows, id: string, previous: string)
    requires Healthy(ctx, rows) && id in rows
    ensures !LoadsNow(ctx, rows, id) && LoadsUnder(ctx, rows, id, previous) <==> IsPrevious(ctx, previous, rows[id], id)
  {
    hide TryLoad, Healthy, Opens, FieldsAgree, PlaintextOk, RecordedKeyFine, SignerTakes, Inner, SignerKeyBad;
    HealthySigner(ctx, rows);
    LoadsNowMeans(ctx, rows, id);
    var raw := rows[id];
    if Inner(raw).sig.None? {
      UnsignedLoadsExactly(ctx, raw, id, Some(previous));
    } else {
      LoadsUnderKeyExactly(ctx, raw, id, previous);
    }
  }

  lemma RenewedIsPersisted(ctx: Ctx, raw: Raw)
    requires Ready(ctx) && Fine(ctx, Inner(raw)) && Inner(raw).body.schemaVersion != 0
    ensures Persisted(ctx, Inner(raw)) == Ok(Renewed(ctx, raw))
  {
    hide Inner;
  }

  /** What re-signing makes of every row: one that is listed, not current and signed by the previous key
      is renewed; every other row stays as it was, and is refused if it is listed and not current. */
  lemma ResignsSignedRows(ctx: Ctx, previous: string, rows: Rows, ids: seq<string>, id: string)
    requires Healthy(ctx, rows) && Distinct(ids) && id in rows
    ensures var out := ResignFrom(ctx, previous, rows, ids, Tally(0, 0, []));
            && out.stopped == None && id in out.rows
            && out.rows[id] == (if id != "" && id in ids && IsPrevious(ctx, previous, rows[id], id) then Renewed(ctx, rows[id]) else rows[id])
            && (id in out.tally.refused
                <==> id != "" && id in ids && !IsCurrent(ctx, rows[id], id) && !IsPrevious(ctx, previous, rows[id], id))
  {
    hide TryLoad, Persisted, ResignFrom, IsCurrent, IsPrevious, Renewed, Inner, Fine, Ready;
    ResignSettles(ctx, previous, rows, ids, Tally(0, 0, []));
    RefusedExactly(ctx, previous, rows, ids, Tally(0, 0, []));
    LoadsNowMeans(ctx, rows, id);
    LoadsUnderMeans(ctx, rows, id, previous);
    RenewedIsPersisted(ctx, rows[id]);
  }

  /** A listed row with neither the previous key's signature over its body nor one the current signer
      takes, so every altered or forged row, is refused and kept as it was. */
  lemma ForgedRowRefused(ctx: Ctx, previous: string, rows: Rows, ids: seq<string>, id: string)
    requires Healthy(ctx, rows) && Distinct(ids) && id in rows && id != "" && id in ids
    requires Inner(rows[id]).sig.Some? && Inner(rows[id]).sig.value != Signature(previous, Inner(rows[id]).body)
    requires match ctx.signer
             case Operator(key, false) => forall k :: Inner(rows[id]).sig.value != Signature(k, Inner(rows[id]).body)
             case _ => Inner(rows[id]).sig.value != Signature(ctx.signer.key, Inner(rows[id]).body)
    ensures var out := ResignFrom(ctx, previous, rows, ids, Tally(0, 0, []));
            id in out.tally.refused && id in out.rows && out.rows[id] == rows[id]
  {
    hide TryLoad, Persisted, ResignFrom, Healthy, Inner;
    ResignsSignedRows(ctx, previous, rows, ids, id);
  }

  /** How many of the listed ids satisfy one of two conditions on their stored rows. */
  ghost function CountCurrent(ctx: Ctx, rows: Rows, ids: seq<string>): nat {
    if ids == [] then 0
    else (if ids[0] != "" && ids[0] in rows && IsCurrent(ctx, rows[ids[0]], ids[0]) then 1 else 0) + CountCurrent(ctx, rows, ids[1..])
  }

  ghost function CountPrevious(ctx: Ctx, previous: string, rows: Rows, ids: seq<string>): nat {
    if ids == [] then 0
    else (if ids[0] != "" && ids[0] in rows && IsPrevious(ctx, previous, rows[ids[0]], ids[0]) then 1 else 0)
         + CountPrevious(ctx, previous, rows, ids[1..])
  }

  lemma {:induction false} SameCounts(ctx: Ctx, previous: string, rows: Rows, other: Rows, ids: seq<string>)
    requires forall id :: id in ids ==> (id in rows <==> id in other) && (id in rows ==> rows[id] == other[id])
    ensures CountCurrent(ctx, rows, ids) == CountCurrent(ctx, other, ids)
    ensures CountPrevious(ctx, previous, rows, ids) == CountPrevious(ctx, previous, other, ids)
  {
    hide IsCurrent, IsPrevious;
    if ids != [] {
      assert ids[0] in ids;
      assert forall id :: id in ids[1..] ==> id in ids;
      SameCounts(ctx, previous, rows, other, ids[1..]);
    }
  }

  /** The counts are those of the rows as they were stored: `resigned` counts the listed rows with the
      previous key's signature over their bodies that were not current, `current` the current ones. */
  lemma {:induction false} TallyExactly(ctx: Ctx, previous: string, rows: Rows, ids: seq<string>, t: Tally)
    requires Healthy(ctx, rows) && Distinct(ids)
    ensures var u := ResignFrom(ctx, previous, rows, ids, t).tally;
            && u.resigned == t.resigned + CountPrevious(ctx, previous, rows, ids)
            && u.current == t.current + CountCurrent(ctx, rows, ids)
    decreases |ids|
  {
    hide TryLoad, Persisted, Inner, IsCurrent, IsPrevious, LoadsNow, LoadsUnder, Healthy;
    if ids != [] {
      var id := ids[0];
      var v := Judge(ctx, previous, rows, id);
      if id == "" || id !in rows {
        TallyExactly(ctx, previous, rows, ids[1..], t);
      } else {
        JudgeHealthy(ctx, previous, rows, id);
        LoadsNowMeans(ctx, rows, id);
        LoadsUnderMeans(ctx, rows, id, previous);
        var next := if v.Resigned? then rows[id := v.row] else rows;
        if v.Resigned? { PersistedKeepsHealth(ctx, rows, id); }
        assert id !in ids[1..];
        SameCounts(ctx, previous, rows, next, ids[1..]);
        assert !(v.Current? && v.Resigned?);
        TallyExactly(ctx, previous, next, ids[1..], Count(t, v, id));
      }
    }
  }

  /** Over any store, also one that is not healthy: a pass that stops has done what a pass over the ids
      before some id does, and stops there because the row of that id aborts a load, under the current
      signer or, when it is not loadable there, under the previous key, or cannot be stored anew. */
  lemma {:induction false} StopsWhereDue(ctx: Ctx, previous: string, rows: Rows, ids: seq<string>, t: Tally) returns (k: nat)
    requires ResignFrom(ctx, previous, rows, ids, t).stopped.Some?
    ensures var out := ResignFrom(ctx, previous, rows, ids, t);
            && k < |ids| && ResignFrom(ctx, previous, rows, ids[..k], t) == out.(stopped := None)
            && ids[k] != "" && ids[k] in out.rows
            && var raw, why := out.rows[ids[k]], out.stopped.value;
               var now, before := TryLoad(ctx, raw, ids[k], None), TryLoad(ctx, raw, ids[k], Some(previous));
               || now == Aborted(why)
               || (now == NotLoadable && before == Aborted(why))
               || (now == NotLoadable && before.Loaded? && Persisted(ctx, before.snap) == Err(why))
    decreases |ids|
  {
    hide TryLoad, Persisted;
    var v := Judge(ctx, previous, rows, ids[0]);
    if v.Stop? {
      k := 0;
      assert ids[..0] == [];
    } else {
      var next := if v.Resigned? then rows[v.id := v.row] else rows;
      k := StopsWhereDue(ctx, previous, next, ids[1..], Count(t, v, ids[0]));
      k := k + 1;
      assert ids[..k][1..] == ids[1..][..k - 1] && ids[..k][0] == ids[0];
    }
  }
}
