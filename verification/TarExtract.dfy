/**
 Where the bodies of the walk's entries lie (lib/archive-tar-read.js), and the size accounting of
 `extractEntries`.
 */
module TarExtract {
  import opened Bytes
  import opened Results
  import opened TarWalk
  import Pax = TarPax

  // ---------------------------------------------------------------- where bodies lie

  /** Blocks and bodies follow one another inside from..limit, on block boundaries. */
  ghost predicate Laid(es: seq<Entry>, from: nat, limit: nat) {
    es == [] ||
    (var e := es[0];
     && from <= e.headerAt && e.headerAt % BLOCK == 0
     && e.headerAt + BLOCK <= e.bodyStart && e.bodyStart % BLOCK == 0
     && e.hdr.size <= e.paddedSize && e.bodyStart + e.paddedSize <= limit
     && Laid(es[1..], e.bodyStart + e.paddedSize, limit))
  }

  lemma PaddedAligned(size: nat)
    ensures Padded(size) % BLOCK == 0
  {
  }

  lemma {:induction false} SparseAligned(bytes: seq<Byte>, pos: nat)
    requires pos % BLOCK == 0 && SparseEnd(bytes, pos).Ok?
    ensures SparseEnd(bytes, pos).value % BLOCK == 0
    decreases |bytes| - pos
  {
    if bytes[pos..pos + BLOCK][X_GNU_SPARSE_ISEXTENDED] != 0 {
      SparseAligned(bytes, pos + BLOCK);
    }
  }

  lemma ExtensionAligned(env: Env, bytes: seq<Byte>, pos: nat, hdr: Header)
    requires pos + BLOCK <= |bytes| && pos % BLOCK == 0 && ExtAt(env, bytes, pos, hdr).Ok?
    ensures ExtAt(env, bytes, pos, hdr).value.1 % BLOCK == 0
  {
    hide ExtAt, Padded;
    ExtensionEnd(env, bytes, pos, hdr);
    PaddedAligned(hdr.size);
    NextBoundary(pos + BLOCK, Padded(hdr.size));
  }

  lemma ExtensionEnd(env: Env, bytes: seq<Byte>, pos: nat, hdr: Header)
    requires pos + BLOCK <= |bytes| && ExtAt(env, bytes, pos, hdr).Ok?
    ensures ExtAt(env, bytes, pos, hdr).value.1 == pos + BLOCK + Padded(hdr.size)
  {
    hide Padded, GnuLongValue, HasKey, Pax.ParseFrom;
  }

  lemma PlaceAligned(env: Env, bytes: seq<Byte>, pos: nat, block: seq<Byte>, e: Entry)
    requires |block| == BLOCK && pos <= |bytes| && pos % BLOCK == 0 && PlaceEntry(env, bytes, pos, block, e).Ok?
    ensures PlaceEntry(env, bytes, pos, block, e).value.bodyStart % BLOCK == 0
  {
    hide Padded;
    if SparseExtensions(bytes, pos, block).Ok? { SparseAligned(bytes, pos); }
  }

  lemma EntryAligned(env: Env, bytes: seq<Byte>, pos: nat, hdr: Header, a: Pending, room: bool)
    requires pos + BLOCK <= |bytes| && pos % BLOCK == 0 && EntryAt(env, bytes, pos, hdr, a, room).Ok?
    ensures var e := EntryAt(env, bytes, pos, hdr, a, room).value;
            e.headerAt == pos && e.bodyStart % BLOCK == 0 && e.paddedSize % BLOCK == 0 && e.hdr.size <= e.paddedSize
  {
    hide ResolveEntry, PlaceEntry;
    var block := bytes[pos..pos + BLOCK];
    var e := ResolveEntry(env, hdr, block, a, pos).value;
    PlaceAligned(env, bytes, pos + BLOCK, block, e);
    PaddedAligned(e.hdr.size);
  }

  lemma NextBoundary(bodyStart: nat, padded: nat)
    requires bodyStart % BLOCK == 0 && padded % BLOCK == 0
    ensures (bodyStart + padded) % BLOCK == 0
  {
  }

  /** The walk's header blocks and bodies are in bounds, on block boundaries, disjoint and in order. */
  lemma {:induction false} WalkIsLaidOut(env: Env, bytes: seq<Byte>, pos: nat, p: Pending, count: nat)
    requires pos % BLOCK == 0 && WalkFrom(env, bytes, pos, p, count).Ok?
    ensures Laid(WalkFrom(env, bytes, pos, p, count).value, pos, |bytes|)
    decreases |bytes| - pos
  {
    hide ExtAt, EntryAt;
    match HeadAt(env, bytes, pos)
    case NoHead =>
    case BadHead(_) =>
    case Head(hdr) =>
      if IsExtension(hdr.typeflag) {
        ExtensionAligned(env, bytes, pos, hdr);
        var read := ExtAt(env, bytes, pos, hdr).value;
        var q := Absorb(p, read.0).value;
        WalkIsLaidOut(env, bytes, read.1, q, count);
        LaidEarlier(WalkFrom(env, bytes, read.1, q, count).value, read.1, pos, |bytes|);
      } else {
        var room := count < env.policy.maxEntries;
        EntryAligned(env, bytes, pos, hdr, p, room);
        var e := EntryAt(env, bytes, pos, hdr, p, room).value;
        NextBoundary(e.bodyStart, e.paddedSize);
        WalkIsLaidOut(env, bytes, e.bodyStart + e.paddedSize, NOTHING, count + 1);
        var rest := WalkFrom(env, bytes, e.bodyStart + e.paddedSize, NOTHING, count + 1).value;
        assert ([e] + rest)[1..] == rest;
      }
  }

  lemma LaidEarlier(es: seq<Entry>, from: nat, earlier: nat, limit: nat)
    requires Laid(es, from, limit) && earlier <= from
    ensures Laid(es, earlier, limit)
  {
  }

  function TotalSize(es: seq<Entry>): nat {
    if es == [] then 0 else es[0].hdr.size + TotalSize(es[1..])
  }

  /** Nothing is counted twice: bodies plus one block per entry fit in the source. */
  lemma {:induction false} BodiesConserved(es: seq<Entry>, from: nat, limit: nat)
    requires Laid(es, from, limit) && from <= limit
    ensures from + BLOCK * |es| + TotalSize(es) <= limit
  {
    if es != [] {
      BodiesConserved(es[1..], es[0].bodyStart + es[0].paddedSize, limit);
    }
  }

  lemma {:induction false} LaidFrom(es: seq<Entry>, from: nat, limit: nat, j: nat)
    requires Laid(es, from, limit) && j < |es|
    ensures from <= es[j].headerAt && es[j].headerAt % BLOCK == 0 && es[j].bodyStart % BLOCK == 0
    ensures es[j].headerAt + BLOCK <= es[j].bodyStart
    ensures es[j].bodyStart + es[j].hdr.size <= es[j].bodyStart + es[j].paddedSize <= limit
    decreases j
  {
    if j > 0 {
      LaidFrom(es[1..], es[0].bodyStart + es[0].paddedSize, limit, j - 1);
    }
  }

  /** Entry j's header block starts no earlier than entry i's padded body ends. */
  lemma {:induction false} BodiesDisjoint(es: seq<Entry>, from: nat, limit: nat, i: nat, j: nat)
    requires Laid(es, from, limit) && i < j < |es|
    ensures es[i].bodyStart + es[i].paddedSize <= es[j].headerAt
    decreases i
  {
    var next := es[0].bodyStart + es[0].paddedSize;
    if i == 0 {
      LaidFrom(es[1..], next, limit, j - 1);
    } else {
      BodiesDisjoint(es[1..], next, limit, i - 1, j - 1);
    }
  }

  // ---------------------------------------------------------------- extraction

  datatype Kind = File | Directory | Symlink | Hardlink | Device | Fifo | Unknown

  function ClassifyTypeflag(tf: Byte): Kind {
    if tf == TF_REGULAR || tf == TF_REGULAR_LEGACY || tf == TF_CONTIGUOUS then File
    else if tf == TF_DIRECTORY || tf == TF_GNU_DUMPDIR then Directory
    else if tf == TF_SYMLINK then Symlink
    else if tf == TF_HARDLINK then Hardlink
    else if tf == TF_CHARDEV || tf == TF_BLOCKDEV then Device
    else if tf == TF_FIFO then Fifo
    else Unknown
  }

  function ClassifyEntry(e: Entry): Kind {
    if e.gnuSparse then Unknown else if e.slashDirectory then Directory else ClassifyTypeflag(e.hdr.typeflag)
  }

  datatype Allow = Allow(symlinks: bool, hardlinks: bool)

  /** `_assertEntryTypeAllowed` */
  predicate Allowed(e: Entry, allow: Allow) {
    match ClassifyEntry(e)
    case File => true
    case Directory => true
    case Symlink => allow.symlinks
    case Hardlink => allow.hardlinks
    case Device => false
    case Fifo => false
    case Unknown => false
  }

  /** Which entries are which, by the byte in the header: sparse files, and volume labels, ACLs and every
      other letter, are of no known kind. */
  lemma KindExactly(e: Entry)
    ensures var tf, plain := e.hdr.typeflag, !e.gnuSparse && !e.slashDirectory;
            && (ClassifyEntry(e) == File <==> plain && (tf == 0x30 || tf == 0x00 || tf == 0x37))
            && (ClassifyEntry(e) == Directory <==> !e.gnuSparse && (e.slashDirectory || tf == 0x35 || tf == 0x44))
            && (ClassifyEntry(e) == Hardlink <==> plain && tf == 0x31)
            && (ClassifyEntry(e) == Symlink <==> plain && tf == 0x32)
            && (ClassifyEntry(e) == Device <==> plain && (tf == 0x33 || tf == 0x34))
            && (ClassifyEntry(e) == Fifo <==> plain && tf == 0x36)
  {
  }

  /** What may be extracted: files and directories, links that were opted in to, and nothing else. */
  lemma AllowedExactly(e: Entry, allow: Allow)
    ensures Allowed(e, allow)
       <==> && !e.gnuSparse
            && var tf := e.hdr.typeflag;
               || e.slashDirectory || tf == 0x30 || tf == 0x00 || tf == 0x37 || tf == 0x35 || tf == 0x44
               || (tf == 0x31 && allow.hardlinks) || (tf == 0x32 && allow.symlinks)
  {
  }

  datatype Item = Item(name: string, body: seq<Byte>)

  ghost predicate InBounds(bytes: seq<Byte>, es: seq<Entry>) {
    forall i :: 0 <= i < |es| ==> es[i].bodyStart + es[i].hdr.size <= |bytes|
  }

  /** The regular files among es, each with the bytes of its own range. */
  function Files(bytes: seq<Byte>, es: seq<Entry>): seq<Item>
    requires InBounds(bytes, es)
  {
    if es == [] then []
    else
      var e := es[|es| - 1];
      Files(bytes, es[..|es| - 1]) +
      (if ClassifyEntry(e) == File then [Item(e.hdr.name, bytes[e.bodyStart..e.bodyStart + e.hdr.size])] else [])
  }

  function BodyTotal(items: seq<Item>): nat {
    if items == [] then 0 else BodyTotal(items[..|items| - 1]) + |items[|items| - 1].body|
  }

  datatype Stop = TypeRefused | TotalTooLarge

  lemma FilesStep(bytes: seq<Byte>, es: seq<Entry>, i: nat)
    requires InBounds(bytes, es) && i < |es|
    ensures var fs, e := Files(bytes, es[..i]), es[i];
            && Files(bytes, es[..i + 1])
               == (if ClassifyEntry(e) == File then fs + [Item(e.hdr.name, bytes[e.bodyStart..e.bodyStart + e.hdr.size])] else fs)
            && BodyTotal(Files(bytes, es[..i + 1])) == BodyTotal(fs) + (if ClassifyEntry(e) == File then e.hdr.size else 0)
  {
    hide ClassifyEntry;
    var fs, e := Files(bytes, es[..i]), es[i];
    assert es[..i + 1][..i] == es[..i];
    if ClassifyEntry(e) == File {
      var item := Item(e.hdr.name, bytes[e.bodyStart..e.bodyStart + e.hdr.size]);
      assert (fs + [item])[..|fs|] == fs;
    } else {
      assert fs + [] == fs;
    }
  }

  lemma NoFiles(bytes: seq<Byte>, es: seq<Entry>)
    requires InBounds(bytes, es)
    ensures Files(bytes, es[..0]) == [] && BodyTotal([]) == 0
  {
  }

  /** `extractEntries` after the walk and the guard: what was yielded, how many entries were done, and
      what stopped it. */
  method ExtractEntries(policy: Policy, bytes: seq<Byte>, es: seq<Entry>, allow: Allow)
    returns (out: seq<Item>, done: nat, stop: Option<Stop>)
    requires InBounds(bytes, es)
    ensures done <= |es| && out == Files(bytes, es[..done])
    ensures forall i :: 0 <= i < done ==> Allowed(es[i], allow)
    ensures BodyTotal(out) <= policy.maxTotalBytes
    ensures match stop
            case None => done == |es|
            case Some(TypeRefused) => done < |es| && !Allowed(es[done], allow)
            case Some(TotalTooLarge) => done < |es| && BodyTotal(Files(bytes, es[..done + 1])) > policy.maxTotalBytes
  {
    hide ClassifyEntry, Files, BodyTotal;
    out, stop := [], None;
    var total := 0;
    NoFiles(bytes, es);
    for i := 0 to |es|
      invariant out == Files(bytes, es[..i]) && total == BodyTotal(out) <= policy.maxTotalBytes
      invariant forall j :: 0 <= j < i ==> Allowed(es[j], allow)
      invariant stop == None
    {
      done := i;
      var entry := es[i];
      FilesStep(bytes, es, i);
      if !Allowed(entry, allow) { stop := Some(TypeRefused); return; }
      var kind := ClassifyEntry(entry);
      if kind == Directory || kind == Symlink || kind == Hardlink { continue; }
      var body := bytes[entry.bodyStart..entry.bodyStart + entry.hdr.size];
      total := total + |body|;
      if total > policy.maxTotalBytes { stop := Some(TotalTooLarge); return; }
      out := out + [Item(entry.hdr.name, body)];
    }
    done := |es|;
  }

  lemma {:induction false} FilesWithinTotal(bytes: seq<Byte>, es: seq<Entry>)
    requires InBounds(bytes, es)
    ensures BodyTotal(Files(bytes, es)) <= TotalSize(es)
  {
    hide ClassifyEntry, Files, BodyTotal;
    if es == [] {
      NoFiles(bytes, es);
    } else {
      var p, e := es[..|es| - 1], es[|es| - 1];
      FilesWithinTotal(bytes, p);
      FilesStep(bytes, es, |es| - 1);
      assert es[..|es|] == es == p + [e];
      TotalSizeSplit(p, [e]);
      assert TotalSize([e]) == e.hdr.size + TotalSize([]);
    }
  }

  lemma {:induction false} TotalSizeSplit(a: seq<Entry>, b: seq<Entry>)
    ensures TotalSize(a + b) == TotalSize(a) + TotalSize(b)
  {
    if a == [] {
      assert a + b == b;
    } else {
      assert (a + b)[1..] == a[1..] + b;
      TotalSizeSplit(a[1..], b);
    }
  }

  lemma LaidInBounds(es: seq<Entry>, bytes: seq<Byte>)
    requires Laid(es, 0, |bytes|)
    ensures InBounds(bytes, es)
  {
    forall i | 0 <= i < |es|
      ensures es[i].bodyStart + es[i].hdr.size <= |bytes|
    {
      LaidFrom(es, 0, |bytes|, i);
    }
  }

  datatype Reading = WalkFailed(error: Error) | Read(items: seq<Item>, stop: Option<Stop>)

  /** Reading a whole archive. For a source within the read cap, as a random-access source always is,
      the cumulative size check cannot fire. */
  method ReadArchive(env: Env, bytes: seq<Byte>, allow: Allow) returns (r: Reading)
    ensures WalkFrom(env, bytes, 0, NOTHING, 0).Err? <==> r.WalkFailed?
    ensures r.Read? ==> InBounds(bytes, WalkFrom(env, bytes, 0, NOTHING, 0).value)
    ensures r.Read? && r.stop.None? ==> r.items == Files(bytes, WalkFrom(env, bytes, 0, NOTHING, 0).value)
    ensures r.Read? && |bytes| <= env.policy.maxTotalBytes ==> r.stop != Some(TotalTooLarge)
    ensures r.Read? && |bytes| <= env.policy.maxTotalBytes ==>
              var es := WalkFrom(env, bytes, 0, NOTHING, 0).value;
              r.stop.None? <==> forall i :: 0 <= i < |es| ==> Allowed(es[i], allow)
  {
    hide WalkFrom, Files, BodyTotal, Laid;
    var walked := Walk(env, bytes);
    if walked.Err? { return WalkFailed(walked.error); }
    var es := walked.value;
    WalkIsLaidOut(env, bytes, 0, NOTHING, 0);
    LaidInBounds(es, bytes);
    var items, done, stop := ExtractEntries(env.policy, bytes, es, allow);
    if done < |es| { PrefixTotal(bytes, es, done + 1); }
    assert es[..|es|] == es;
    r := Read(items, stop);
  }

  lemma PrefixTotal(bytes: seq<Byte>, es: seq<Entry>, k: nat)
    requires Laid(es, 0, |bytes|) && InBounds(bytes, es) && k <= |es|
    ensures BodyTotal(Files(bytes, es[..k])) <= |bytes|
  {
    hide Laid, Files, BodyTotal, TotalSize;
    FilesWithinTotal(bytes, es[..k]);
    TotalSizeSplit(es[..k], es[k..]);
    assert es[..k] + es[k..] == es;
    BodiesConserved(es, 0, |bytes|);
  }
}
