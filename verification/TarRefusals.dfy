/**
 Why the reader of lib/archive-tar-read.js refuses an archive: at which header block the walk stops, and
 with which error, with every number of the format written out.
 */
module TarRefusals {
  import opened Bytes
  import opened Results
  import opened TarWalk
  import opened TarLayout
  import Pax = TarPax

  // ---------------------------------------------------------------- extension headers

  /** The text before the first NUL is empty, or is not UTF-8. */
  ghost predicate LongRefused(u: Pax.Utf8, body: seq<Byte>, e: Error) {
    exists n: nat ::
      && n <= |body| && 0 !in body[..n] && (n < |body| ==> body[n] == 0)
      && if n == 0 then e == BadLongRecord else !u.valid(body[..n]) && e == NameNotUtf8
  }

  /** The error of an x, X, g, L or K header: too large, cut off, not made of records, or not allowed. */
  ghost predicate ExtRefused(env: Env, bytes: seq<Byte>, pos: nat, hdr: Header, e: Error) {
    var long := hdr.typeflag == 0x4c || hdr.typeflag == 0x4b;
    if hdr.size > env.policy.maxEntryBytes || (long && hdr.size > 65536) then e == EntryTooLarge
    else if pos + 512 + Filled(hdr.size) > |bytes| then e == TruncatedEntry
    else
      var body := bytes[pos + 512..pos + 512 + hdr.size];
      if long then LongRefused(env.utf8, body, e)
      else
        || (exists p: Pax.PaxError :: e == BadPax(p) && Pax.ParseFrom(env.utf8, body, map[]) == Pax.Failed(p))
        || (hdr.typeflag == 0x67 && e == GlobalEntryAttribute
            && exists records: Records, key: string :: Tiled(env.utf8, body, records) && key in records && EntryKey(key))
  }

  lemma LongRefusedExactly(u: Pax.Utf8, body: seq<Byte>, e: Error)
    ensures GnuLongValue(u, body) == Err(e) <==> LongRefused(u, body, e)
  {
    var nul := Pax.IndexOf(body, 0, 0);
    var n := if nul == -1 then |body| else nul;
    assert body[..|body|] == body;
    assert 0 !in body[..n] by {
      forall i | 0 <= i < n ensures body[..n][i] != 0 { assert body[..n][i] == body[i]; }
    }
    forall m: nat | m <= |body| && 0 !in body[..m] && (m < |body| ==> body[m] == 0)
      ensures m == n
    {
      forall i | 0 <= i < m ensures body[i] != 0 { assert body[..m][i] == body[i]; }
    }
  }

  lemma GlobalRefusedExactly(u: Pax.Utf8, body: seq<Byte>)
    ensures Pax.ParseFrom(u, body, map[]).Parsed? && HasKey(Pax.ParseFrom(u, body, map[]).records, IsGlobalRefusedKey)
       <==> exists records: Records, key: string :: Tiled(u, body, records) && key in records && EntryKey(key)
  {
    hide Pax.ParseFrom, Tiled, EntryKey, IsGlobalRefusedKey, HasKey;
    var parsed := Pax.ParseFrom(u, body, map[]);
    if parsed.Parsed? {
      TiledExactly(u, body, parsed.records);
      GlobalExactly(parsed.records);
    }
    if records: Records, key: string :| Tiled(u, body, records) && key in records && EntryKey(key) {
      TiledExactly(u, body, records);
    }
  }

  lemma ExtRefusedExactly(env: Env, bytes: seq<Byte>, pos: nat, hdr: Header, e: Error)
    requires pos + 512 <= |bytes| && ExtensionFlag(hdr.typeflag)
    ensures ExtAt(env, bytes, pos, hdr) == Err(e) <==> ExtRefused(env, bytes, pos, hdr, e)
  {
    hide Padded, Filled, Tiled, HasKey, EntryKey, GnuLongValue, LongRefused, Pax.ParseFrom;
    FilledIsPadded(hdr.size);
    if pos + 512 + Padded(hdr.size) <= |bytes| {
      var body := bytes[pos + 512..pos + 512 + hdr.size];
      LongRefusedExactly(env.utf8, body, e);
      GlobalRefusedExactly(env.utf8, body);
    }
  }

  // ---------------------------------------------------------------- entry headers

  ghost predicate LinkFlag(tf: Byte) {
    tf == 0x31 || tf == 0x32
  }

  /** The pax name: the sparse name, or else the path. */
  ghost function PaxName(a: Pending): Option<string> {
    if Given(a, "GNU.sparse.name").Some? then Given(a, "GNU.sparse.name") else Given(a, "path")
  }

  ghost function NameOfEntry(hdr: Header, a: Pending): string {
    if a.longName.Some? then a.longName.value else if PaxName(a).Some? then PaxName(a).value else hdr.name
  }

  /** What is said of names and targets: records that differ, or a text of the header's own that is not
      UTF-8. */
  ghost function NamesObjection(hdr: Header, a: Pending): Option<Error> {
    var name, link := PaxName(a), Given(a, "linkpath");
    if a.longName.Some? && name.Some? && a.longName != name then Some(LongNamePaxConflict)
    else if a.longLink.Some? && link.Some? && a.longLink != link then Some(LongNamePaxConflict)
    else if a.longName.None? && name.None? && !hdr.nameIsUtf8 then Some(NameNotUtf8)
    else if LinkFlag(hdr.typeflag) && a.longLink.None? && link.None? && !hdr.linknameIsUtf8 then Some(NameNotUtf8)
    else None
  }

  /** The size record is a canonical decimal of at most 2^53 - 1. */
  ghost predicate SizeFine(a: Pending) {
    Absent(a, "size") || exists n: nat :: n <= 9007199254740991 && a.pax.value["size"] == Pax.NumberString(n)
  }

  ghost predicate SizeIsZero(hdr: Header, a: Pending) {
    hdr.size == 0 && (Absent(a, "size") || a.pax.value["size"] == "0")
  }

  ghost predicate NoBody(hdr: Header, a: Pending) {
    var name := NameOfEntry(hdr, a);
    || EntryFlagOnly(hdr.typeflag)
    || ((hdr.typeflag == 0x30 || hdr.typeflag == 0 || hdr.typeflag == 0x37) && name != "" && name[|name| - 1] == '/')
  }

  /** What is said of the header and the records before it, in this order: a volume label or an ACL after
      records, a size record that is no size, names and targets, a size on what has no body, a target on
      what is no link, and too many entries. */
  ghost function EntryObjection(hdr: Header, a: Pending, room: bool): Option<Error> {
    if (hdr.typeflag == 0x56 || hdr.typeflag == 0x41) && (a.pax.Some? || a.longName.Some? || a.longLink.Some?) then Some(DanglingExtendedHeader)
    else if !SizeFine(a) then Some(BadPaxSize)
    else if NamesObjection(hdr, a).Some? then NamesObjection(hdr, a)
    else if NoBody(hdr, a) && !SizeIsZero(hdr, a) then Some(SizeOnNonFile)
    else if (a.longLink.Some? || Given(a, "linkpath").Some?) && !LinkFlag(hdr.typeflag) then Some(LinkTargetOnNonLink)
    else if !room then Some(TooManyEntries)
    else None
  }

  /** The extension blocks behind the header at pos: j whole ones that are continued and filled, and then
      one that is cut off, or is continued and not filled. */
  ghost predicate ChainRefused(bytes: seq<Byte>, pos: nat, j: nat, e: Error) {
    && (forall i :: 0 <= i < j ==> Blk(pos, i) + 512 <= |bytes| && bytes[Blk(pos, i) + 504] != 0 && MapFilled(bytes, Blk(pos, i), 21))
    && if Blk(pos, j) + 512 > |bytes| then e == TruncatedEntry
       else bytes[Blk(pos, j) + 504] != 0 && !MapFilled(bytes, Blk(pos, j), 21) && e == BadSparseHeader
  }

  /** What is said of the body of an entry of this size. */
  ghost predicate BodyRefused(env: Env, bytes: seq<Byte>, pos: nat, tf: Byte, size: nat, e: Error)
    requires pos + 512 <= |bytes|
  {
    if size > env.policy.maxEntryBytes then e == EntryTooLarge
    else
      || (tf == 0x53 && bytes[pos + 482] != 0
          && if GnuFormat(bytes, pos) && MapFilled(bytes, pos + 386, 4) then exists j: nat :: ChainRefused(bytes, pos, j, e)
             else e == BadSparseHeader)
      || (e == TruncatedEntry && exists bodyStart: nat :: BodyAt(bytes, pos, tf, bodyStart) && bodyStart + Filled(size) > |bytes|)
  }

  ghost predicate EntryRefused(env: Env, bytes: seq<Byte>, pos: nat, hdr: Header, a: Pending, room: bool, e: Error)
    requires pos + 512 <= |bytes|
  {
    var o := EntryObjection(hdr, a, room);
    if o.Some? then o == Some(e)
    else exists size: nat :: SizeTaken(hdr, a, size) && BodyRefused(env, bytes, pos, hdr.typeflag, size, e)
  }

  lemma {:induction false} ChainRefusedMeans(bytes: seq<Byte>, pos: nat, j: nat, e: Error) returns (k: nat)
    requires SparseEnd(bytes, Blk(pos, j)) == Err(e)
    ensures k >= j
    ensures forall i :: j <= i < k ==> Blk(pos, i) + 512 <= |bytes| && bytes[Blk(pos, i) + 504] != 0 && MapFilled(bytes, Blk(pos, i), 21)
    ensures if Blk(pos, k) + 512 > |bytes| then e == TruncatedEntry
            else bytes[Blk(pos, k) + 504] != 0 && !MapFilled(bytes, Blk(pos, k), 21) && e == BadSparseHeader
    decreases |bytes| - Blk(pos, j)
  {
    hide SparseMapFull, MapFilled;
    var at := Blk(pos, j);
    k := j;
    if at + 512 <= |bytes| {
      BlockByte(bytes, at, 504);
      MapExactly(bytes, at, 0, 21);
      if MapFilled(bytes, at, 21) {
        k := ChainRefusedMeans(bytes, pos, j + 1, e);
      }
    }
  }

  lemma {:induction false} ChainRefusedCan(bytes: seq<Byte>, pos: nat, j: nat, k: nat, e: Error)
    requires ChainRefused(bytes, pos, k, e) && j <= k
    ensures SparseEnd(bytes, Blk(pos, j)) == Err(e)
    decreases k - j
  {
    hide SparseMapFull, MapFilled;
    var at := Blk(pos, j);
    if j < k {
      assert Blk(pos, j + 1) == at + 512 <= |bytes|;
      BlockByte(bytes, at, 504);
      MapExactly(bytes, at, 0, 21);
      ChainRefusedCan(bytes, pos, j + 1, k, e);
    } else if at + 512 <= |bytes| {
      BlockByte(bytes, at, 504);
      MapExactly(bytes, at, 0, 21);
    }
  }

  lemma SparseRefusedExactly(bytes: seq<Byte>, pos: nat, e: Error)
    requires pos + 512 <= |bytes|
    ensures SparseExtensions(bytes, pos + 512, bytes[pos..pos + 512]) == Err(e)
       <==> if GnuFormat(bytes, pos) && MapFilled(bytes, pos + 386, 4) then exists j: nat :: ChainRefused(bytes, pos, j, e)
            else e == BadSparseHeader
  {
    hide SparseEnd, HasGnuMagic, SparseMapFull, MapFilled, GnuFormat, ChainRefused;
    GnuExactly(bytes, pos);
    MapExactly(bytes, pos, 386, 4);
    assert Blk(pos, 0) == pos + 512;
    if SparseEnd(bytes, pos + 512) == Err(e) {
      var k := ChainRefusedMeans(bytes, pos, 0, e);
      assert ChainRefused(bytes, pos, k, e) by { ChainRefusedIs(bytes, pos, k, e); }
    }
    if j: nat :| ChainRefused(bytes, pos, j, e) {
      ChainRefusedCan(bytes, pos, 0, j, e);
    }
  }

  lemma ChainRefusedIs(bytes: seq<Byte>, pos: nat, k: nat, e: Error)
    requires forall i :: 0 <= i < k ==> Blk(pos, i) + 512 <= |bytes| && bytes[Blk(pos, i) + 504] != 0 && MapFilled(bytes, Blk(pos, i), 21)
    requires if Blk(pos, k) + 512 > |bytes| then e == TruncatedEntry
             else bytes[Blk(pos, k) + 504] != 0 && !MapFilled(bytes, Blk(pos, k), 21) && e == BadSparseHeader
    ensures ChainRefused(bytes, pos, k, e)
  {
  }

  /** Where the body lies, when the extension blocks are in order. */
  lemma BodyAtExactly(bytes: seq<Byte>, pos: nat, tf: Byte, bodyStart: nat)
    requires pos + 512 <= |bytes|
    ensures (if tf == TF_GNU_SPARSE && bytes[pos..pos + 512][482] != 0 then SparseExtensions(bytes, pos + 512, bytes[pos..pos + 512])
             else Result<nat, Error>.Ok(pos + 512)) == Ok(bodyStart)
       <==> BodyAt(bytes, pos, tf, bodyStart)
  {
    hide SparseExtensions, GnuFormat, MapFilled, Chain;
    BlockByte(bytes, pos, 482);
    ExtensionsExactly(bytes, pos, bodyStart);
  }

  lemma BodyRefusedExactly(env: Env, bytes: seq<Byte>, pos: nat, entry: Entry, e: Error)
    requires pos + 512 <= |bytes|
    ensures PlaceEntry(env, bytes, pos + 512, bytes[pos..pos + 512], entry) == Err(e)
       <==> BodyRefused(env, bytes, pos, entry.hdr.typeflag, entry.hdr.size, e)
  {
    hide SparseExtensions, GnuFormat, MapFilled, ChainRefused, BodyAt, Filled, Padded;
    FilledIsPadded(entry.hdr.size);
    BlockByte(bytes, pos, 482);
    SparseRefusedExactly(bytes, pos, e);
    forall bodyStart: nat
      ensures (if entry.hdr.typeflag == TF_GNU_SPARSE && bytes[pos..pos + 512][482] != 0
               then SparseExtensions(bytes, pos + 512, bytes[pos..pos + 512])
               else Result<nat, Error>.Ok(pos + 512)) == Ok(bodyStart)
         <==> BodyAt(bytes, pos, entry.hdr.typeflag, bodyStart)
    {
      BodyAtExactly(bytes, pos, entry.hdr.typeflag, bodyStart);
    }
  }

  lemma SizeRefusedExactly(hdr: Header, a: Pending)
    ensures EntrySize(hdr, a.pax).Ok? <==> SizeFine(a)
    ensures EntrySize(hdr, a.pax).Err? ==> EntrySize(hdr, a.pax).error == BadPaxSize
    ensures EntrySize(hdr, a.pax).Ok? ==>
              var r := EntrySize(hdr, a.pax).value; SizeTaken(hdr, a, r.0) && (hdr.size == 0 && r.1 == 0 <==> SizeIsZero(hdr, a))
  {
    hide Pax.PaxSize, Pax.NumberString;
    if !Absent(a, "size") {
      var text := a.pax.value["size"];
      NumberZero();
      Pax.PaxSizeExactly(text, 0);
      if Pax.PaxSize(text).Size? { Pax.PaxSizeExactly(text, Pax.PaxSize(text).n); }
      if n: nat :| n <= 9007199254740991 && text == Pax.NumberString(n) { Pax.PaxSizeExactly(text, n); }
    }
  }

  lemma NumberZero()
    ensures Pax.NumberString(0) == "0"
  {
  }

  lemma NamesRefusedExactly(hdr: Header, a: Pending, e: Error)
    ensures EntryNames(hdr, a) == Err(e) <==> NamesObjection(hdr, a) == Some(e)
    ensures EntryNames(hdr, a).Ok? <==> NamesObjection(hdr, a).None?
    ensures EntryNames(hdr, a).Ok? ==> EntryNames(hdr, a).value.0 == NameOfEntry(hdr, a)
    ensures PaxValue(a.pax, Pax.LINKPATH) == Given(a, "linkpath")
  {
  }

  lemma NoBodyExactly(hdr: Header, a: Pending)
    ensures WithoutBody(hdr.typeflag) || SlashDirectory(hdr.typeflag, NameOfEntry(hdr, a)) <==> NoBody(hdr, a)
    ensures IsLink(hdr.typeflag) <==> LinkFlag(hdr.typeflag)
  {
    hide NameOfEntry;
  }

  /** Everything but the body. */
  lemma HeaderRefusedExactly(env: Env, bytes: seq<Byte>, pos: nat, hdr: Header, a: Pending, room: bool, e: Error)
    requires pos + 512 <= |bytes|
    ensures EntryObjection(hdr, a, room).Some? ==>
              (EntryAt(env, bytes, pos, hdr, a, room) == Err(e) <==> EntryObjection(hdr, a, room) == Some(e))
    ensures EntryObjection(hdr, a, room).None? ==>
              var block := bytes[pos..pos + 512];
              var r := ResolveEntry(env, hdr, block, a, pos);
              && r.Ok? && r.value.hdr.typeflag == hdr.typeflag && SizeTaken(hdr, a, r.value.hdr.size)
              && EntryAt(env, bytes, pos, hdr, a, room) == PlaceEntry(env, bytes, pos + 512, block, r.value)
  {
    hide PlaceEntry, EntrySize, EntryNames, SizeTaken, SizeFine, SizeIsZero, NamesObjection, NoBody, NameOfEntry, LinkFlag, IsLink,
         HasKey, OldGnuSparseFieldsSet, Given, PaxValue, WithoutBody, SlashDirectory, Absent;
    SizeRefusedExactly(hdr, a);
    NamesRefusedExactly(hdr, a, e);
    if EntryNames(hdr, a).Err? { NamesRefusedExactly(hdr, a, EntryNames(hdr, a).error); }
    NoBodyExactly(hdr, a);
  }

  lemma OneSize(hdr: Header, a: Pending, m: nat, n: nat)
    requires SizeTaken(hdr, a, m) && SizeTaken(hdr, a, n)
    ensures m == n
  {
    hide Pax.NumberString;
    if !Absent(a, "size") {
      Pax.PaxSizeExactly(a.pax.value["size"], m);
      Pax.PaxSizeExactly(a.pax.value["size"], n);
    }
  }

  /** The walk refuses an entry header with an error exactly when that is the first thing to be said of it,
      in the order above. */
  lemma EntryRefusedExactly(env: Env, bytes: seq<Byte>, pos: nat, hdr: Header, a: Pending, room: bool, e: Error)
    requires pos + 512 <= |bytes|
    ensures EntryAt(env, bytes, pos, hdr, a, room) == Err(e) <==> EntryRefused(env, bytes, pos, hdr, a, room, e)
  {
    hide EntryAt, ResolveEntry, PlaceEntry, BodyRefused, SizeTaken, EntryObjection;
    HeaderRefusedExactly(env, bytes, pos, hdr, a, room, e);
    if EntryObjection(hdr, a, room).None? {
      var r := ResolveEntry(env, hdr, bytes[pos..pos + 512], a, pos).value;
      BodyRefusedExactly(env, bytes, pos, r, e);
      if size: nat :| SizeTaken(hdr, a, size) && BodyRefused(env, bytes, pos, hdr.typeflag, size, e) {
        OneSize(hdr, a, size, r.hdr.size);
      }
    }
  }

  // ---------------------------------------------------------------- whole archives

  /** The walk stops at the block at pos, when it holds the records a and has found so many entries:
      records at the end of the archive, a header that cannot be read, a second L or K record or x or X
      header for one entry, or a header that is refused. */
  ghost predicate StopsAt(env: Env, bytes: seq<Byte>, pos: nat, a: Pending, count: nat, e: Error) {
    if EndsAt(bytes, pos) then (a.pax.Some? || a.longName.Some? || a.longLink.Some?) && e == DanglingExtendedHeader
    else
      match env.parseHeader(bytes[pos..pos + 512])
      case Err(x) => e == x
      case Ok(hdr) =>
        if (hdr.typeflag == 0x4c && a.longName.Some?) || (hdr.typeflag == 0x4b && a.longLink.Some?) then e == BadLongRecord
        else if ExtensionFlag(hdr.typeflag) then
          || ExtRefused(env, bytes, pos, hdr, e)
          || (a.pax.Some? && e == RedundantExtendedHeader
              && exists records: Records, next: nat :: ExtStands(env, bytes, pos, hdr, Local(records), next))
        else EntryRefused(env, bytes, pos, hdr, a, count < env.policy.maxEntries, e)
  }

  /** The walk goes on behind the block at pos. */
  ghost predicate GoesOn(env: Env, bytes: seq<Byte>, pos: nat, a: Pending, count: nat) {
    match TokenAt(env, bytes, pos)
    case Extension(ext, _) => Absorb(a, ext).Ok?
    case EntryHeader(hdr) => EntryAt(env, bytes, pos, hdr, a, count < env.policy.maxEntries).Ok?
    case _ => false
  }

  /** The header at pos, read or not. */
  lemma HeadCases(env: Env, bytes: seq<Byte>, pos: nat)
    ensures EndsAt(bytes, pos) <==> HeadAt(env, bytes, pos).NoHead?
    ensures !EndsAt(bytes, pos) ==>
              && pos + 512 <= |bytes|
              && HeadAt(env, bytes, pos) == (match env.parseHeader(bytes[pos..pos + 512]) case Err(x) => BadHead(x) case Ok(hdr) => Head(hdr))
  {
    HeadExactly(env, bytes, pos, Header("", 0, 0, 0, 0, 0.0, 0, "", "", "", true, true));
  }

  lemma LongFlags(env: Env, bytes: seq<Byte>, pos: nat, hdr: Header, ext: Ext, next: nat)
    requires ExtStands(env, bytes, pos, hdr, ext, next)
    ensures (ext.LongName? ==> hdr.typeflag == 0x4c) && (ext.LongLink? ==> hdr.typeflag == 0x4b)
  {
    hide HeaderAt, Filled, Tiled, LongText, EntryKey;
  }

  /** The extension header at pos, for a walk that holds a. */
  lemma ExtStops(env: Env, bytes: seq<Byte>, pos: nat, hdr: Header, a: Pending, count: nat, e: Error)
    requires HeadAt(env, bytes, pos) == Head(hdr) && ExtensionFlag(hdr.typeflag) && pos + 512 <= |bytes|
    ensures StopsAt(env, bytes, pos, a, count, e) ==> WalkFrom(env, bytes, pos, a, count) == Err(e)
    ensures WalkFrom(env, bytes, pos, a, count) == Err(e) && !GoesOn(env, bytes, pos, a, count) ==> StopsAt(env, bytes, pos, a, count, e)
  {
    hide ExtAt, ExtRefused, ExtStands, EndsAt, HeadAt;
    HeadCases(env, bytes, pos);
    FlagsExactly(hdr.typeflag);
    ExtRefusedExactly(env, bytes, pos, hdr, e);
    var r := ExtAt(env, bytes, pos, hdr);
    var t := TokenAt(env, bytes, pos);
    HeadExactly(env, bytes, pos, hdr);
    if r.Ok? {
      KindExactly(env, bytes, pos, hdr, r.value.0, r.value.1);
      LongFlags(env, bytes, pos, hdr, r.value.0, r.value.1);
      if r.value.0.Local? { assert ExtStands(env, bytes, pos, hdr, Local(r.value.0.records), r.value.1); }
    } else {
      ExtRefusedExactly(env, bytes, pos, hdr, r.error);
    }
    if records: Records, next: nat :| ExtStands(env, bytes, pos, hdr, Local(records), next) {
      KindExactly(env, bytes, pos, hdr, Local(records), next);
    }
  }

  lemma EntryStops(env: Env, bytes: seq<Byte>, pos: nat, hdr: Header, a: Pending, count: nat, e: Error)
    requires HeadAt(env, bytes, pos) == Head(hdr) && !ExtensionFlag(hdr.typeflag) && pos + 512 <= |bytes|
    ensures StopsAt(env, bytes, pos, a, count, e) ==> WalkFrom(env, bytes, pos, a, count) == Err(e)
    ensures WalkFrom(env, bytes, pos, a, count) == Err(e) && !GoesOn(env, bytes, pos, a, count) ==> StopsAt(env, bytes, pos, a, count, e)
  {
    hide EntryAt, EntryRefused, EndsAt, HeadAt;
    HeadCases(env, bytes, pos);
    FlagsExactly(hdr.typeflag);
    var room := count < env.policy.maxEntries;
    EntryRefusedExactly(env, bytes, pos, hdr, a, room, e);
    var r := EntryAt(env, bytes, pos, hdr, a, room);
  }

  lemma StopExactly(env: Env, bytes: seq<Byte>, pos: nat, a: Pending, count: nat, e: Error)
    ensures StopsAt(env, bytes, pos, a, count, e) ==> WalkFrom(env, bytes, pos, a, count) == Err(e)
    ensures WalkFrom(env, bytes, pos, a, count) == Err(e) && !GoesOn(env, bytes, pos, a, count) ==> StopsAt(env, bytes, pos, a, count, e)
  {
    hide EndsAt, HeadAt, ExtRefused, ExtStands, EntryRefused, ExtensionFlag, GoesOn;
    HeadCases(env, bytes, pos);
    match HeadAt(env, bytes, pos)
    case NoHead =>
    case BadHead(_) =>
    case Head(hdr) =>
      if ExtensionFlag(hdr.typeflag) {
        ExtStops(env, bytes, pos, hdr, a, count, e);
      } else {
        EntryStops(env, bytes, pos, hdr, a, count, e);
      }
  }

  /** The members ms stand from pos on, up to end. */
  ghost predicate WrittenUpTo(env: Env, bytes: seq<Byte>, pos: nat, ms: seq<Member>, end: nat)
    decreases |ms|
  {
    if ms == [] then end == pos
    else MemberStands(env, bytes, pos, ms[0]) && WrittenUpTo(env, bytes, ms[0].entry.bodyStart + ms[0].entry.paddedSize, ms[1..], end)
  }

  /** The walk over the extension headers at pos. */
  lemma {:induction false} OverSpan(env: Env, bytes: seq<Byte>, pos: nat, before: seq<Ext>, exts: seq<Ext>, at: nat, count: nat)
    requires SpanStands(env, bytes, pos, exts, at) && AtMostOneEach(before + exts)
    ensures WalkFrom(env, bytes, pos, Collected(before), count) == WalkFrom(env, bytes, at, Collected(before + exts), count)
    decreases |exts|
  {
    hide WalkFrom, Collected, AtMostOneEach, ExtStands, TokenAt;
    if exts == [] {
      assert before + [] == before;
    } else {
      var hdr: Header, next: nat :| ExtStands(env, bytes, pos, hdr, exts[0], next) && SpanStands(env, bytes, next, exts[1..], at);
      ExtensionExactly(env, bytes, pos, exts[0], next);
      var now := before + [exts[0]];
      assert before + exts == now + exts[1..];
      AtMostOnePrefix(now, exts[1..]);
      AtMostOnePrefix(before, [exts[0]]);
      WalkOverExtension(env, bytes, pos, before, count);
      OverSpan(env, bytes, next, now, exts[1..], at, count);
    }
  }

  /** The walk over one member. */
  lemma OverMember(env: Env, bytes: seq<Byte>, pos: nat, m: Member, count: nat)
    requires MemberStands(env, bytes, pos, m) && count < env.policy.maxEntries
    ensures WalkFrom(env, bytes, pos, NOTHING, count)
         == Prepend([m.entry], WalkFrom(env, bytes, m.entry.bodyStart + m.entry.paddedSize, NOTHING, count + 1))
  {
    hide EntryAt, Described, Collected, AtMostOneEach, HeaderAt, ExtensionFlag, Holds, NoRepeats, SpanStands, HeadAt, ExtAt;
    var at := m.entry.headerAt;
    CollectNothing();
    CollectedExactly(m.exts);
    assert [] + m.exts == m.exts;
    OverSpan(env, bytes, pos, [], m.exts, at, count);
    IsEntryExactly(env, bytes, at, m.exts, m.entry);
  }

  lemma {:induction false} OverMembers(env: Env, bytes: seq<Byte>, pos: nat, ms: seq<Member>, end: nat, count: nat, e: Error)
    requires WrittenUpTo(env, bytes, pos, ms, end) && count + |ms| <= env.policy.maxEntries
    ensures WalkFrom(env, bytes, pos, NOTHING, count) == Err(e) <==> WalkFrom(env, bytes, end, NOTHING, count + |ms|) == Err(e)
    decreases |ms|
  {
    hide WalkFrom, MemberStands;
    if ms != [] {
      OverMember(env, bytes, pos, ms[0], count);
      OverMembers(env, bytes, ms[0].entry.bodyStart + ms[0].entry.paddedSize, ms[1..], end, count + 1, e);
    }
  }

  /** The extension headers that the walk passes from pos on. */
  lemma {:induction false} SpanFrom(env: Env, bytes: seq<Byte>, pos: nat, before: seq<Ext>) returns (exts: seq<Ext>, at: nat)
    requires AtMostOneEach(before)
    ensures SpanStands(env, bytes, pos, exts, at) && AtMostOneEach(before + exts)
    ensures var t := TokenAt(env, bytes, at); t.Extension? ==> Absorb(Collected(before + exts), t.ext).Err?
    decreases |bytes| - pos
  {
    hide WalkFrom, Collected, AtMostOneEach, ExtStands, TokenAt;
    var t := TokenAt(env, bytes, pos);
    if t.Extension? && Absorb(Collected(before), t.ext).Ok? {
      AbsorbCollects(before, t.ext);
      ExtensionExactly(env, bytes, pos, t.ext, t.next);
      var rest;
      rest, at := SpanFrom(env, bytes, t.next, before + [t.ext]);
      exts := [t.ext] + rest;
      var hdr: Header :| ExtStands(env, bytes, pos, hdr, t.ext, t.next);
      assert exts[0] == t.ext && exts[1..] == rest;
      assert ExtStands(env, bytes, pos, hdr, exts[0], t.next);
      assert before + exts == before + [t.ext] + rest;
    } else {
      exts, at := [], pos;
      assert before + [] == before;
    }
  }

  /** Where the walk stops. */
  lemma {:induction false} StopFound(env: Env, bytes: seq<Byte>, pos: nat, count: nat, e: Error)
    returns (ms: seq<Member>, end: nat, exts: seq<Ext>, at: nat)
    requires WalkFrom(env, bytes, pos, NOTHING, count) == Err(e) && count <= env.policy.maxEntries
    ensures WrittenUpTo(env, bytes, pos, ms, end) && count + |ms| <= env.policy.maxEntries
    ensures SpanStands(env, bytes, end, exts, at) && AtMostOneEach(exts)
    ensures StopsAt(env, bytes, at, Collected(exts), count + |ms|, e)
    decreases |bytes| - pos
  {
    hide WalkFrom, Collected, AtMostOneEach, TokenAt, StopsAt, EntryAt, MemberStands, SpanStands;
    CollectNothing();
    exts, at := SpanFrom(env, bytes, pos, []);
    assert [] + exts == exts;
    OverSpan(env, bytes, pos, [], exts, at, count);
    var t := TokenAt(env, bytes, at);
    var room := count < env.policy.maxEntries;
    if t.EntryHeader? && EntryAt(env, bytes, at, t.hdr, Collected(exts), room).Ok? {
      if !room { NoRoom(env, bytes, at, t.hdr, Collected(exts)); }
      var m := Member(exts, EntryAt(env, bytes, at, t.hdr, Collected(exts), room).value);
      StandsThere(env, bytes, pos, m, at);
      OverMember(env, bytes, pos, m, count);
      SpanForward(env, bytes, pos, exts, at);
      var next := m.entry.bodyStart + m.entry.paddedSize;
      var rest;
      rest, end, exts, at := StopFound(env, bytes, next, count + 1, e);
      ms := [m] + rest;
      assert ms[1..] == rest;
    } else {
      ms, end := [], pos;
      StopExactly(env, bytes, at, Collected(exts), count, e);
    }
  }

  lemma {:induction false} SpanForward(env: Env, bytes: seq<Byte>, pos: nat, exts: seq<Ext>, at: nat)
    requires SpanStands(env, bytes, pos, exts, at)
    ensures at >= pos
    decreases |exts|
  {
    hide HeaderAt, ExtHolds;
    if exts != [] {
      var hdr: Header, next: nat :| ExtStands(env, bytes, pos, hdr, exts[0], next) && SpanStands(env, bytes, next, exts[1..], at);
      SpanForward(env, bytes, next, exts[1..], at);
    }
  }

  lemma StandsThere(env: Env, bytes: seq<Byte>, pos: nat, m: Member, at: nat)
    requires SpanStands(env, bytes, pos, m.exts, at) && AtMostOneEach(m.exts)
    requires TokenAt(env, bytes, at).EntryHeader?
    requires EntryAt(env, bytes, at, TokenAt(env, bytes, at).hdr, Collected(m.exts), true) == Ok(m.entry)
    ensures MemberStands(env, bytes, pos, m)
  {
    hide EntryAt, Described, Collected, AtMostOneEach, HeaderAt, ExtensionFlag, Holds, NoRepeats, SpanStands, TokenAt;
    IsEntryExactly(env, bytes, at, m.exts, m.entry);
  }

  /** The walk refuses an archive with an error exactly when members stand at its front, then extension
      headers that do not repeat, and then a block at which it must stop with that error. */
  lemma WalkFailsExactly(env: Env, bytes: seq<Byte>, e: Error)
    ensures WalkFrom(env, bytes, 0, NOTHING, 0) == Err(e)
       <==> exists ms: seq<Member>, end: nat, exts: seq<Ext>, at: nat, a: Pending ::
              && WrittenUpTo(env, bytes, 0, ms, end) && |ms| <= env.policy.maxEntries
              && SpanStands(env, bytes, end, exts, at) && NoRepeats(exts) && Holds(exts, a)
              && StopsAt(env, bytes, at, a, |ms|, e)
  {
    hide WalkFrom, WrittenUpTo, SpanStands, StopsAt, Holds, NoRepeats, Collected, AtMostOneEach;
    if WalkFrom(env, bytes, 0, NOTHING, 0) == Err(e) {
      var ms, end, exts, at := StopFound(env, bytes, 0, 0, e);
      CollectedExactly(exts);
    }
    if ms: seq<Member>, end: nat, exts: seq<Ext>, at: nat, a: Pending :|
      && WrittenUpTo(env, bytes, 0, ms, end) && |ms| <= env.policy.maxEntries
      && SpanStands(env, bytes, end, exts, at) && NoRepeats(exts) && Holds(exts, a)
      && StopsAt(env, bytes, at, a, |ms|, e)
    {
      StopIsReached(env, bytes, ms, end, exts, at, a, e);
    }
  }

  lemma StopIsReached(env: Env, bytes: seq<Byte>, ms: seq<Member>, end: nat, exts: seq<Ext>, at: nat, a: Pending, e: Error)
    requires WrittenUpTo(env, bytes, 0, ms, end) && |ms| <= env.policy.maxEntries
    requires SpanStands(env, bytes, end, exts, at) && NoRepeats(exts) && Holds(exts, a)
    requires StopsAt(env, bytes, at, a, |ms|, e)
    ensures WalkFrom(env, bytes, 0, NOTHING, 0) == Err(e)
  {
    hide WalkFrom, WrittenUpTo, SpanStands, StopsAt, Holds, NoRepeats, Collected, AtMostOneEach;
    CollectNothing();
    CollectedExactly(exts);
    HoldsOne(exts, a, Collected(exts));
    StopExactly(env, bytes, at, a, |ms|, e);
    assert [] + exts == exts;
    OverSpan(env, bytes, end, [], exts, at, |ms|);
    OverMembers(env, bytes, 0, ms, end, 0, e);
  }
}
