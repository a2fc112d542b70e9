/**
 Loading, persisting and re-signing snapshots (lib/agent-snapshot.js). Signatures and sealing are
 ideal: a signature verifies under a key exactly when that key made it over those bytes, and a
 sealed blob opens exactly in its own vault under its own context.
 */
module AgentSnapshot {
  import opened Results

  const SCHEMA_VERSION := 1

  /** The signed part of an envelope; `content` stands for the hash of its three state sections. */
  datatype Canonical = Canonical(
    snapshotId: string, takenAt: nat, frameworkVersion: string, schemaVersion: nat, tenantId: Option<string>, content: string)

  datatype Signature = Signature(key: string, over: Canonical)

  datatype Snap = Snap(body: Canonical, sig: Option<Signature>, sigPubKey: Option<string>)

  /** `_snapshotAad`, without its two constants. */
  datatype Aad = Aad(rowId: string, schemaVersion: nat)

  datatype Blob = Blob(plaintext: Snap, aad: Aad, vault: string)

  /** A stored row: the sealed wrapper, or the envelope itself. */
  datatype Raw =
    | Sealed(snapshotId: string, takenAt: nat, tenantId: Option<string>, schemaVersion: Option<nat>, blob: Blob)
    | Plain(snap: Snap)

  /** Who signs: an operator's signer, which may not expose its key, or the audit signer. */
  datatype Signer = Operator(key: string, exposesKey: bool) | AuditSign(key: string)

  datatype KeyState = Absent | Clean | Compromised | Unreadable

  datatype Ctx = Ctx(
    signer: Signer, sealer: Option<string>, allowPlaintext: bool, regulated: bool,
    guard: Snap -> bool, fits: Snap -> bool, readKey: string -> KeyState)

  datatype Abort = GuardFailed | SealerNotWired | SignerKeyUnusable | Oversize | BadPreviousKey | PostureRefused

  /** Outcome of `_tryLoad`: refusals are swallowed, other errors abort. */
  datatype Load = Loaded(snap: Snap) | NotLoadable | Aborted(why: Abort)

  /** `_sigKeyState` */
  function SigKeyState(ctx: Ctx, key: Option<string>): KeyState {
    if key.None? || key.value == "" then Absent else ctx.readKey(key.value)
  }

  function Verifies(sig: Signature, body: Canonical, key: string): bool {
    sig == Signature(key, body)
  }

  /** The key the context's signer pins on load, if it exposes one. */
  function OperatorKey(ctx: Ctx): Option<string> {
    if ctx.signer.Operator? && ctx.signer.exposesKey then Some(ctx.signer.key) else None
  }

  /** What `getPublicKey` gives `_persist`. */
  function PublishedKey(ctx: Ctx): Option<string> {
    if ctx.signer.Operator? && !ctx.signer.exposesKey then None else Some(ctx.signer.key)
  }

  predicate Usable(s: KeyState) {
    s == Absent || s == Clean
  }

  function SignatureAccepted(ctx: Ctx, snap: Snap, pinned: Option<string>): bool
    requires snap.sig.Some?
  {
    Usable(SigKeyState(ctx, snap.sigPubKey)) &&
    if pinned.Some? then Verifies(snap.sig.value, snap.body, pinned.value)
    else if ctx.signer.AuditSign? then
      (snap.sigPubKey.None? || snap.sigPubKey.value == "" || snap.sigPubKey.value == ctx.signer.key) &&
      Verifies(snap.sig.value, snap.body, ctx.signer.key)
    else if ctx.signer.exposesKey then Verifies(snap.sig.value, snap.body, ctx.signer.key)
    else Verifies(snap.sig.value, snap.body,
                  if snap.sigPubKey.Some? && snap.sigPubKey.value != "" then snap.sigPubKey.value else ctx.signer.key)
  }

  /** `sealer.unseal` under the context `_unwrapAndVerify` rebuilds from the wrapper. */
  function Unseal(raw: Raw, vault: string): Option<Snap>
    requires raw.Sealed?
  {
    var aad := Aad(raw.snapshotId, if raw.schemaVersion.Some? && raw.schemaVersion.value != 0 then raw.schemaVersion.value else SCHEMA_VERSION);
    if raw.blob.aad == aad && raw.blob.vault == vault then Some(raw.blob.plaintext) else None
  }

  /** `_unwrapAndVerify` from the guard on. */
  function CheckEnvelope(ctx: Ctx, raw: Raw, id: string, snap: Snap, pinned: Option<string>): Load {
    var tenantId := if raw.Sealed? then raw.tenantId else snap.body.tenantId;
    var takenAt := if raw.Sealed? then raw.takenAt else snap.body.takenAt;
    if !ctx.guard(snap) then Aborted(GuardFailed)
    else if snap.body.snapshotId != id || tenantId != snap.body.tenantId || takenAt != snap.body.takenAt then NotLoadable
    else if snap.sig.None? then
      if ctx.allowPlaintext && !ctx.regulated then Loaded(snap) else NotLoadable
    else if pinned.None? && OperatorKey(ctx).Some? && !Usable(SigKeyState(ctx, OperatorKey(ctx))) then Aborted(SignerKeyUnusable)
    else if !SignatureAccepted(ctx, snap, pinned) then NotLoadable
    else if raw.Plain? && (!ctx.allowPlaintext || ctx.regulated) then NotLoadable
    else Loaded(snap)
  }

  /** `_tryLoad`; `pinned` is the previous public key, when the row is checked under that. */
  function TryLoad(ctx: Ctx, raw: Raw, id: string, pinned: Option<string>): Load {
    if raw.Sealed? then
      if ctx.sealer.None? then
        if ctx.allowPlaintext && ctx.regulated then NotLoadable else Aborted(SealerNotWired)
      else
        match Unseal(raw, ctx.sealer.value)
        case None => NotLoadable
        case Some(snap) => CheckEnvelope(ctx, raw, id, snap, pinned)
    else CheckEnvelope(ctx, raw, id, raw.snap, pinned)
  }

  function Signed(ctx: Ctx, snap: Snap): Snap {
    Snap(snap.body, Some(Signature(ctx.signer.key, snap.body)), PublishedKey(ctx))
  }

  /** `_persist`: the row it stores. */
  function Persisted(ctx: Ctx, snap: Snap): Result<Raw, Abort> {
    if !ctx.guard(snap) then Err(GuardFailed)
    else if !Usable(SigKeyState(ctx, PublishedKey(ctx))) then Err(SignerKeyUnusable)
    else
      var signed := Signed(ctx, snap);
      if ctx.sealer.None? && !ctx.allowPlaintext then Err(SealerNotWired)
      else if ctx.sealer.None? && ctx.regulated then Err(PostureRefused)
      else if !ctx.fits(signed) then Err(Oversize)
      else if ctx.sealer.Some? then
        Ok(Sealed(snap.body.snapshotId, snap.body.takenAt, snap.body.tenantId, None,
                  Blob(signed, Aad(snap.body.snapshotId, if snap.body.schemaVersion != 0 then snap.body.schemaVersion else SCHEMA_VERSION), ctx.sealer.value)))
      else Ok(Plain(signed))
  }

  // ---------------------------------------------------------------- re-signing

  datatype Tally = Tally(resigned: nat, current: nat, refused: seq<string>)

  type Rows = map<string, Raw>

  datatype Verdict = Missing | Current | Refused | Resigned(row: Raw, id: string) | Stop(why: Abort)

  /** What `_resign` does with one listed id. */
  function Judge(ctx: Ctx, previous: string, rows: Rows, id: string): Verdict {
    if id == "" || id !in rows then Missing
    else
      match TryLoad(ctx, rows[id], id, None)
      case Aborted(why) => Stop(why)
      case Loaded(_) => Current
      case NotLoadable =>
        match TryLoad(ctx, rows[id], id, Some(previous))
        case Aborted(why) => Stop(why)
        case NotLoadable => Refused
        case Loaded(snap) =>
          match Persisted(ctx, snap)
          case Err(why) => Stop(why)
          case Ok(row) => Resigned(row, snap.body.snapshotId)
  }

  function Count(t: Tally, v: Verdict, id: string): Tally {
    match v
    case Missing => t
    case Current => t.(current := t.current + 1)
    case Refused => t.(refused := t.refused + [id])
    case Resigned(_, _) => t.(resigned := t.resigned + 1)
    case Stop(_) => t
  }

  datatype Outcome = Outcome(rows: Rows, tally: Tally, stopped: Option<Abort>)

  function ResignFrom(ctx: Ctx, previous: string, rows: Rows, ids: seq<string>, t: Tally): Outcome
    decreases |ids|
  {
    if ids == [] then Outcome(rows, t, None)
    else
      var v := Judge(ctx, previous, rows, ids[0]);
      if v.Stop? then Outcome(rows, t, Some(v.why))
      else ResignFrom(ctx, previous, if v.Resigned? then rows[v.id := v.row] else rows, ids[1..], Count(t, v, ids[0]))
  }

  class Backend {
    var rows: Rows

    constructor (initial: Rows)
      ensures rows == initial
    {
      rows := initial;
    }

    method Put(id: string, row: Raw)
      modifies this
      ensures rows == old(rows)[id := row]
    {
      rows := rows[id := row];
    }
  }

  /** `_resign` over the ids the backend lists. */
  method Resign(ctx: Ctx, backend: Backend, previous: string, ids: seq<string>) returns (tally: Tally, stopped: Option<Abort>)
    modifies backend
    ensures !SigKeyState(ctx, Some(previous)).Clean? ==> stopped == Some(BadPreviousKey) && backend.rows == old(backend.rows)
    ensures SigKeyState(ctx, Some(previous)).Clean? ==>
              Outcome(backend.rows, tally, stopped) == ResignFrom(ctx, previous, old(backend.rows), ids, Tally(0, 0, []))
  {
    tally := Tally(0, 0, []);
    if !SigKeyState(ctx, Some(previous)).Clean? { return tally, Some(BadPreviousKey); }
    for i := 0 to |ids|
      invariant ResignFrom(ctx, previous, old(backend.rows), ids, Tally(0, 0, [])) == ResignFrom(ctx, previous, backend.rows, ids[i..], tally)
    {
      var id := ids[i];
      assert ids[i..][0] == id && ids[i..][1..] == ids[i + 1..];
      if id == "" || id !in backend.rows { continue; }
      var raw := backend.rows[id];
      var now := TryLoad(ctx, raw, id, None);
      if now.Aborted? { return tally, Some(now.why); }
      if now.Loaded? {
        tally := tally.(current := tally.current + 1);
        continue;
      }
      var before := TryLoad(ctx, raw, id, Some(previous));
      if before.Aborted? { return tally, Some(before.why); }
      if before.NotLoadable? {
        tally := tally.(refused := tally.refused + [id]);
        continue;
      }
      var row := Persisted(ctx, before.snap);
      if row.Err? { return tally, Some(row.error); }
      backend.Put(before.snap.body.snapshotId, row.value);
      tally := tally.(resigned := tally.resigned + 1);
    }
    stopped := None;
  }

  // ---------------------------------------------------------------- what a re-signed row is worth

  /** The envelope passes the guard and the size cap, also once it is signed anew. */
  ghost predicate Fine(ctx: Ctx, snap: Snap) {
    ctx.guard(snap) && ctx.guard(Signed(ctx, snap)) && ctx.fits(Signed(ctx, snap))
  }

  function Inner(raw: Raw): Snap {
    if raw.Sealed? then raw.blob.plaintext else raw.snap
  }

  /** The signer's key can be used, and there is a way to store a row. */
  ghost predicate Ready(ctx: Ctx) {
    && Usable(SigKeyState(ctx, Some(ctx.signer.key))) && ctx.signer.key != ""
    && (ctx.sealer.Some? || (ctx.allowPlaintext && !ctx.regulated))
  }

  /** A loaded row holds an envelope for its own id. */
  lemma LoadedIsInner(ctx: Ctx, raw: Raw, id: string, pinned: Option<string>)
    requires TryLoad(ctx, raw, id, pinned).Loaded?
    ensures TryLoad(ctx, raw, id, pinned).snap == Inner(raw) && Inner(raw).body.snapshotId == id
  {
  }

  /** A row written by `_persist` loads under the current signer, with the same body, exactly when no
      sealer is wired or the envelope has the current schema version: the wrapper does not record the
      schema version the seal was bound to. */
  lemma PersistedLoadsExactly(ctx: Ctx, snap: Snap)
    requires Ready(ctx) && Fine(ctx, snap) && snap.body.schemaVersion != 0
    ensures Persisted(ctx, snap).Ok?
    ensures var row := Persisted(ctx, snap).value;
            var load := TryLoad(ctx, row, snap.body.snapshotId, None);
            && (load == Loaded(Signed(ctx, snap)) <==> ctx.sealer.None? || snap.body.schemaVersion == SCHEMA_VERSION)
            && (load == Loaded(Signed(ctx, snap)) || load == NotLoadable)
    ensures Signed(ctx, snap).body == snap.body
  {
  }

  /** ... and when it does not load, it does not load under any previous key either. */
  lemma PersistedLost(ctx: Ctx, snap: Snap, previous: string)
    requires Ready(ctx) && Fine(ctx, snap) && snap.body.schemaVersion != 0
    requires ctx.sealer.Some? && snap.body.schemaVersion != SCHEMA_VERSION
    ensures TryLoad(ctx, Persisted(ctx, snap).value, snap.body.snapshotId, Some(previous)) == NotLoadable
  {
  }

  // ---------------------------------------------------------------- over the whole store

  /** Every row's envelope is fine and no sealed row lacks a sealer. */
  ghost predicate Healthy(ctx: Ctx, rows: Rows) {
    && Ready(ctx)
    && forall id :: id in rows ==>
         && Fine(ctx, Inner(rows[id])) && Inner(rows[id]).body.schemaVersion != 0
         && (rows[id].Sealed? ==> ctx.sealer.Some?)
  }

  ghost predicate LoadsNow(ctx: Ctx, rows: Rows, id: string) {
    id in rows && TryLoad(ctx, rows[id], id, None).Loaded?
  }

  ghost predicate LoadsUnder(ctx: Ctx, rows: Rows, id: string, key: string) {
    id in rows && TryLoad(ctx, rows[id], id, Some(key)).Loaded?
  }

  /** The envelope survives re-sealing. */
  ghost predicate Resealable(ctx: Ctx, raw: Raw) {
    ctx.sealer.None? || Inner(raw).body.schemaVersion == SCHEMA_VERSION
  }

  ghost predicate Visited(rows: Rows, ids: seq<string>, id: string) {
    id in ids && id in rows && id != ""
  }

  ghost predicate Distinct(ids: seq<string>) {
    forall i, j :: 0 <= i < j < |ids| ==> ids[i] != ids[j]
  }

  /** What becomes of one row. */
  ghost predicate Settled(ctx: Ctx, previous: string, rows: Rows, out: Outcome, id: string) {
    && id in rows && id in out.rows
    && if LoadsNow(ctx, rows, id) then out.rows[id] == rows[id]
       else if LoadsUnder(ctx, rows, id, previous) then
         && Persisted(ctx, Inner(rows[id])) == Ok(out.rows[id])
         && Inner(out.rows[id]).body == Inner(rows[id]).body
       else out.rows[id] == rows[id] && id in out.tally.refused
  }

  lemma JudgeHealthy(ctx: Ctx, previous: string, rows: Rows, id: string)
    requires Healthy(ctx, rows) && id != "" && id in rows
    ensures var v := Judge(ctx, previous, rows, id);
            && (v.Current? <==> LoadsNow(ctx, rows, id))
            && (v.Resigned? <==> !LoadsNow(ctx, rows, id) && LoadsUnder(ctx, rows, id, previous))
            && (v.Refused? <==> !LoadsNow(ctx, rows, id) && !LoadsUnder(ctx, rows, id, previous))
            && (v.Resigned? ==> v.id == id && Persisted(ctx, Inner(rows[id])) == Ok(v.row))
            && !v.Stop?
  {
    if TryLoad(ctx, rows[id], id, Some(previous)).Loaded? {
      LoadedIsInner(ctx, rows[id], id, Some(previous));
    }
  }

  lemma PersistedKeepsHealth(ctx: Ctx, rows: Rows, id: string)
    requires Healthy(ctx, rows) && id in rows && Persisted(ctx, Inner(rows[id])).Ok?
    ensures var row := Persisted(ctx, Inner(rows[id])).value;
            Healthy(ctx, rows[id := row]) && Inner(row).body == Inner(rows[id]).body
  {
    var row := Persisted(ctx, Inner(rows[id])).value;
    assert Inner(row) == Signed(ctx, Inner(rows[id]));
    assert Signed(ctx, Inner(row)) == Inner(row);
  }

  lemma SettledElsewhere(ctx: Ctx, previous: string, rows: Rows, next: Rows, out: Outcome, id: string)
    requires Settled(ctx, previous, next, out, id) && id in rows && rows[id] == next[id]
    ensures Settled(ctx, previous, rows, out, id)
  {
  }

  /** Re-signing visits every listed row once and settles it; rows it does not visit are untouched. */
  lemma {:induction false} ResignSettles(ctx: Ctx, previous: string, rows: Rows, ids: seq<string>, t: Tally)
    requires Healthy(ctx, rows) && Distinct(ids)
    ensures var out := ResignFrom(ctx, previous, rows, ids, t);
            && out.stopped == None && Healthy(ctx, out.rows) && out.rows.Keys == rows.Keys
            && (forall id :: Visited(rows, ids, id) ==> Settled(ctx, previous, rows, out, id))
            && (forall id :: id in rows && !Visited(rows, ids, id) ==> out.rows[id] == rows[id])
            && t.refused <= out.tally.refused
    decreases |ids|
  {
    hide TryLoad, Persisted, Inner;
    if ids != [] {
      var id := ids[0];
      var v := Judge(ctx, previous, rows, id);
      if id == "" || id !in rows {
        ResignSettles(ctx, previous, rows, ids[1..], t);
        assert forall j :: j in ids <==> j == id || j in ids[1..];
      } else {
        JudgeHealthy(ctx, previous, rows, id);
        var next := if v.Resigned? then rows[id := v.row] else rows;
        if v.Resigned? { PersistedKeepsHealth(ctx, rows, id); }
        var u := Count(t, v, id);
        ResignSettles(ctx, previous, next, ids[1..], u);
        var out := ResignFrom(ctx, previous, next, ids[1..], u);
        assert id !in ids[1..];
        assert out.rows[id] == next[id];
        assert v.Refused? ==> id in u.refused;
        forall j | j in rows
          ensures if Visited(rows, ids, j) then Settled(ctx, previous, rows, out, j) else out.rows[j] == rows[j]
        {
          if j != id {
            assert j in ids <==> j in ids[1..];
            assert Visited(rows, ids, j) <==> Visited(next, ids[1..], j);
            if Visited(rows, ids, j) { SettledElsewhere(ctx, previous, rows, next, out, j); }
          }
        }
      }
    }
  }

  function CountVisited(rows: Rows, ids: seq<string>): nat {
    if ids == [] then 0 else (if ids[0] != "" && ids[0] in rows then 1 else 0) + CountVisited(rows, ids[1..])
  }

  lemma {:induction false} SameCount(rows: Rows, other: Rows, ids: seq<string>)
    requires rows.Keys == other.Keys
    ensures CountVisited(rows, ids) == CountVisited(other, ids)
  {
    if ids != [] {
      assert ids[0] in rows <==> ids[0] in other;
      SameCount(rows, other, ids[1..]);
    }
  }

  /** The three counts add up to the rows visited. */
  lemma {:induction false} TallyAddsUp(ctx: Ctx, previous: string, rows: Rows, ids: seq<string>, t: Tally)
    requires Healthy(ctx, rows)
    ensures var u := ResignFrom(ctx, previous, rows, ids, t).tally;
            u.resigned + u.current + |u.refused| == t.resigned + t.current + |t.refused| + CountVisited(rows, ids)
    decreases |ids|
  {
    if ids != [] {
      var id := ids[0];
      var v := Judge(ctx, previous, rows, id);
      if id == "" || id !in rows {
        TallyAddsUp(ctx, previous, rows, ids[1..], t);
      } else {
        JudgeHealthy(ctx, previous, rows, id);
        var next := if v.Resigned? then rows[id := v.row] else rows;
        if v.Resigned? { PersistedKeepsHealth(ctx, rows, id); }
        SameCount(rows, next, ids[1..]);
        TallyAddsUp(ctx, previous, next, ids[1..], Count(t, v, id));
      }
    }
  }

  /** After re-signing, a visited row loads under the current signer with its body unchanged, or it is
      listed as refused and unchanged, exactly when it did not have to be re-sealed under another
      schema version. */
  lemma ResignPartitionsExactly(ctx: Ctx, previous: string, rows: Rows, ids: seq<string>, id: string)
    requires Healthy(ctx, rows) && Distinct(ids) && Visited(rows, ids, id)
    ensures var out := ResignFrom(ctx, previous, rows, ids, Tally(0, 0, []));
            id in out.rows &&
            (((LoadsNow(ctx, out.rows, id) && Inner(out.rows[id]).body == Inner(rows[id]).body) ||
              (id in out.tally.refused && out.rows[id] == rows[id]))
             <==> LoadsNow(ctx, rows, id) || !LoadsUnder(ctx, rows, id, previous) || Resealable(ctx, rows[id]))
  {
    ResignSettles(ctx, previous, rows, ids, Tally(0, 0, []));
    RefusedExactly(ctx, previous, rows, ids, Tally(0, 0, []));
    PersistedLoadsExactly(ctx, Inner(rows[id]));
    if LoadsUnder(ctx, rows, id, previous) {
      LoadedIsInner(ctx, rows[id], id, Some(previous));
    }
  }

  /** The excluded case is real: a plaintext row of schema version 2 that verifies under the previous
      key is counted as re-signed, and afterwards loads under no key. */
  lemma VersionTwoIsLost()
    ensures exists ctx: Ctx, row: Raw, id: string, previous: string ::
              var out := ResignFrom(ctx, previous, map[id := row], [id], Tally(0, 0, []));
              && Healthy(ctx, map[id := row])
              && TryLoad(ctx, row, id, Some(previous)).Loaded?
              && out.tally == Tally(1, 0, [])
              && id in out.rows
              && TryLoad(ctx, out.rows[id], id, None) == NotLoadable
              && TryLoad(ctx, out.rows[id], id, Some(previous)) == NotLoadable
  {
    var ctx := Ctx(AuditSign("new"), Some("vault"), true, false, (_: Snap) => true, (_: Snap) => true, (_: string) => Clean);
    var body := Canonical("s", 1, "1.0", 2, None, "state");
    var snap := Snap(body, Some(Signature("old", body)), Some("old"));
    var row := Plain(snap);
    var rows := map["s" := row];
    assert ctx.guard(snap) && ctx.guard(Signed(ctx, snap)) && ctx.fits(Signed(ctx, snap));
    assert Healthy(ctx, rows);
    assert TryLoad(ctx, row, "s", None) == NotLoadable;
    assert TryLoad(ctx, row, "s", Some("old")) == Loaded(snap);
    PersistedLoadsExactly(ctx, snap);
    PersistedLost(ctx, snap, "old");
    var v := Judge(ctx, "old", rows, "s");
    var next := rows["s" := Persisted(ctx, snap).value];
    assert v == Resigned(next["s"], "s");
    assert ["s"][1..] == [];
    assert ResignFrom(ctx, "old", rows, ["s"], Tally(0, 0, [])) == ResignFrom(ctx, "old", next, [], Tally(1, 0, []));
    assert rows == map["s" := row];
  }

  /** The refused list grows by exactly the visited rows that load under neither signer. */
  lemma {:induction false} RefusedExactly(ctx: Ctx, previous: string, rows: Rows, ids: seq<string>, t: Tally)
    requires Healthy(ctx, rows) && Distinct(ids)
    ensures forall id :: id in ResignFrom(ctx, previous, rows, ids, t).tally.refused <==>
              id in t.refused
              || (Visited(rows, ids, id) && !LoadsNow(ctx, rows, id) && !LoadsUnder(ctx, rows, id, previous))
    decreases |ids|
  {
    hide TryLoad, Persisted, Inner;
    if ids != [] {
      var id := ids[0];
      var v := Judge(ctx, previous, rows, id);
      if id == "" || id !in rows {
        RefusedExactly(ctx, previous, rows, ids[1..], t);
        assert forall j :: Visited(rows, ids, j) <==> Visited(rows, ids[1..], j);
      } else {
        JudgeHealthy(ctx, previous, rows, id);
        var next := if v.Resigned? then rows[id := v.row] else rows;
        if v.Resigned? { PersistedKeepsHealth(ctx, rows, id); }
        RefusedExactly(ctx, previous, next, ids[1..], Count(t, v, id));
        assert id !in ids[1..];
        assert forall j :: j != id ==> (Visited(rows, ids, j) <==> Visited(next, ids[1..], j));
        assert Visited(rows, ids, id);
      }
    }
  }

  /** A second pass re-signs nothing, whatever the first one met. */
  lemma SecondResignIdle(ctx: Ctx, previous: string, rows: Rows, ids: seq<string>)
    requires Healthy(ctx, rows) && Distinct(ids)
    ensures var out := ResignFrom(ctx, previous, rows, ids, Tally(0, 0, []));
            var again := ResignFrom(ctx, previous, out.rows, ids, Tally(0, 0, []));
            again.tally.resigned == 0 && again.rows == out.rows
  {
    ResignSettles(ctx, previous, rows, ids, Tally(0, 0, []));
    var out := ResignFrom(ctx, previous, rows, ids, Tally(0, 0, []));
    forall id | Visited(out.rows, ids, id)
      ensures !Judge(ctx, previous, out.rows, id).Resigned?
    {
      assert Visited(rows, ids, id) && Settled(ctx, previous, rows, out, id);
      JudgeHealthy(ctx, previous, out.rows, id);
      if !LoadsNow(ctx, rows, id) && LoadsUnder(ctx, rows, id, previous) {
        LoadedIsInner(ctx, rows[id], id, Some(previous));
        PersistedLoadsExactly(ctx, Inner(rows[id]));
        if !Resealable(ctx, rows[id]) { PersistedLost(ctx, Inner(rows[id]), previous); }
      }
    }
    IdlePass(ctx, previous, out.rows, ids, Tally(0, 0, []));
  }

  lemma {:induction false} IdlePass(ctx: Ctx, previous: string, rows: Rows, ids: seq<string>, t: Tally)
    requires forall id :: Visited(rows, ids, id) ==> !Judge(ctx, previous, rows, id).Resigned?
    ensures ResignFrom(ctx, previous, rows, ids, t).rows == rows
    ensures ResignFrom(ctx, previous, rows, ids, t).tally.resigned == t.resigned
    decreases |ids|
  {
    if ids != [] {
      assert Visited(rows, ids, ids[0]) || ids[0] == "" || ids[0] !in rows;
      forall id | Visited(rows, ids[1..], id)
        ensures Visited(rows, ids, id)
      {
      }
      IdlePass(ctx, previous, rows, ids[1..], Count(t, Judge(ctx, previous, rows, ids[0]), ids[0]));
    }
  }
}
