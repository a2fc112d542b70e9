/**
 The archives the reader of lib/archive-tar-read.js accepts, with every number and byte of the format
 written out: where headers and bodies lie, which header blocks are extension headers, and what an
 entry takes from the records before it.
 */
module TarLayout {
  import opened Bytes
  import opened Results
  import opened TarWalk
  import Pax = TarPax

  // ---------------------------------------------------------------- blocks

  /** The archive ends: no whole block is left, or the block holds only zeros. */
  ghost predicate EndsAt(bytes: seq<Byte>, pos: nat) {
    pos + 512 > |bytes| || forall i :: pos <= i < pos + 512 ==> bytes[i] == 0
  }

  /** A header block that can be read. */
  ghost predicate HeaderAt(env: Env, bytes: seq<Byte>, pos: nat, hdr: Header) {
    !EndsAt(bytes, pos) && env.parseHeader(bytes[pos..pos + 512]) == Ok(hdr)
  }

  /** The room a body of this size takes: up to the next multiple of 512. */
  function Filled(size: nat): (p: nat)
    ensures p >= size
  {
    if size % 512 == 0 then size else size - size % 512 + 512
  }

  lemma FilledIsPadded(size: nat)
    ensures Padded(size) == Filled(size)
  {
    var q, r := size / 512, size % 512;
    assert size == 512 * q + r;
    if r == 0 {
      assert (512 * q + 511) / 512 == q;
    } else {
      assert (512 * q + (r + 511)) / 512 == q + 1;
    }
  }

  lemma HeadExactly(env: Env, bytes: seq<Byte>, pos: nat, hdr: Header)
    ensures HeadAt(env, bytes, pos) == Head(hdr) <==> HeaderAt(env, bytes, pos, hdr)
    ensures HeadAt(env, bytes, pos).NoHead? <==> EndsAt(bytes, pos)
  {
    if pos + 512 <= |bytes| {
      var block := bytes[pos..pos + 512];
      if EndsAt(bytes, pos) {
        assert IsZeroBlock(block);
      }
      if IsZeroBlock(block) {
        forall i | pos <= i < pos + 512
          ensures bytes[i] == 0
        {
          var d := i - pos;
          assert bytes[i] == block[d];
        }
      }
    }
  }

  /** The walk meets the end of the archive exactly where fewer than 512 bytes or a zero block stand. */
  lemma EndExactly(env: Env, bytes: seq<Byte>, pos: nat)
    ensures TokenAt(env, bytes, pos).End? <==> EndsAt(bytes, pos)
  {
    hide EndsAt, HeadAt, ExtAt;
    HeadExactly(env, bytes, pos, Header("", 0, 0, 0, 0, 0.0, 0, "", "", "", true, true));
  }

  // ---------------------------------------------------------------- extension headers

  ghost predicate ExtensionFlag(tf: Byte) {
    tf == 0x78 || tf == 0x58 || tf == 0x67 || tf == 0x4c || tf == 0x4b
  }

  /** The body is tiled by legal records, which are what it holds. */
  ghost predicate Tiled(u: Pax.Utf8, body: seq<Byte>, records: Records) {
    exists rs: seq<Pax.Record> :: Pax.AllLegal(u, rs) && Pax.Concat(rs) == body && Pax.LastWins(u, rs, map[]) == records
  }

  /** A key of a global header that would apply to every later entry. */
  ghost predicate EntryKey(key: string) {
    || key == "path" || key == "linkpath" || key == "size"
    || "GNU.sparse." <= key || key == "SCHILY.realsize" || key == "SUN.holesdata"
  }

  /** The text before the first NUL of the body, if there is any, and the whole body otherwise. */
  ghost predicate LongText(u: Pax.Utf8, body: seq<Byte>, v: string) {
    exists n: nat ::
      && 1 <= n <= |body| && 0 !in body[..n] && (n < |body| ==> body[n] == 0)
      && u.valid(body[..n]) && u.decode(body[..n]) == v
  }

  /** A header of this kind with this body is the extension header ext. */
  ghost predicate ExtHolds(u: Pax.Utf8, tf: Byte, body: seq<Byte>, ext: Ext) {
    match ext
    case Local(records) => (tf == 0x78 || tf == 0x58) && Tiled(u, body, records)
    case Global(records) => tf == 0x67 && Tiled(u, body, records) && forall key :: key in records ==> !EntryKey(key)
    case LongName(v) => tf == 0x4c && |body| <= 65536 && LongText(u, body, v)
    case LongLink(v) => tf == 0x4b && |body| <= 65536 && LongText(u, body, v)
  }

  /** The header hdr at pos is the extension header ext, and the next header is at next. */
  ghost predicate ExtStands(env: Env, bytes: seq<Byte>, pos: nat, hdr: Header, ext: Ext, next: nat) {
    && HeaderAt(env, bytes, pos, hdr)
    && hdr.size <= env.policy.maxEntryBytes
    && next == pos + 512 + Filled(hdr.size) <= |bytes| && pos + 512 + hdr.size <= |bytes|
    && ExtHolds(env.utf8, hdr.typeflag, bytes[pos + 512..pos + 512 + hdr.size], ext)
  }

  lemma TiledExactly(u: Pax.Utf8, body: seq<Byte>, records: Records)
    ensures Pax.ParseFrom(u, body, map[]) == Pax.Parsed(records) <==> Tiled(u, body, records)
  {
    Pax.ParseExactly(u, body, records);
  }

  lemma LongExactly(u: Pax.Utf8, body: seq<Byte>, v: string)
    ensures GnuLongValue(u, body) == Ok(v) <==> LongText(u, body, v)
  {
    var nul := Pax.IndexOf(body, 0, 0);
    var n := if nul == -1 then |body| else nul;
    assert body[..|body|] == body;
    if GnuLongValue(u, body) == Ok(v) {
      forall b | b in body[..n] ensures b != 0 {
        var i :| 0 <= i < n && body[..n][i] == b;
        assert body[i] == b;
      }
    }
    if m: nat :| 1 <= m <= |body| && 0 !in body[..m] && (m < |body| ==> body[m] == 0) && u.valid(body[..m]) && u.decode(body[..m]) == v {
      forall i | 0 <= i < m ensures body[i] != 0 {
        assert body[..m][i] == body[i];
      }
    }
  }

  lemma GlobalExactly(records: Records)
    ensures HasKey(records, IsGlobalRefusedKey) <==> exists key :: key in records && EntryKey(key)
  {
    if key :| key in records && EntryKey(key) {
      assert IsGlobalRefusedKey(key);
    }
  }

  lemma PaxHeaderExactly(env: Env, bytes: seq<Byte>, pos: nat, hdr: Header, ext: Ext, next: nat)
    requires HeaderAt(env, bytes, pos, hdr) && (hdr.typeflag == 0x78 || hdr.typeflag == 0x58 || hdr.typeflag == 0x67)
    requires pos + BLOCK <= |bytes|
    ensures ExtAt(env, bytes, pos, hdr) == Ok((ext, next)) <==> ExtStands(env, bytes, pos, hdr, ext, next)
  {
    hide HeaderAt, Tiled, Padded, Filled, HasKey, IsGlobalRefusedKey, Pax.ParseFrom, GnuLongValue, LongText, EntryKey;
    FilledIsPadded(hdr.size);
    if hdr.size <= Padded(hdr.size) && pos + 512 + Padded(hdr.size) <= |bytes| {
      var body := bytes[pos + 512..pos + 512 + hdr.size];
      var records := if ext.Local? || ext.Global? then ext.records else map[];
      TiledExactly(env.utf8, body, records);
      GlobalExactly(records);
    }
  }

  lemma LongHeaderExactly(env: Env, bytes: seq<Byte>, pos: nat, hdr: Header, ext: Ext, next: nat)
    requires HeaderAt(env, bytes, pos, hdr) && (hdr.typeflag == 0x4c || hdr.typeflag == 0x4b)
    requires pos + BLOCK <= |bytes|
    ensures ExtAt(env, bytes, pos, hdr) == Ok((ext, next)) <==> ExtStands(env, bytes, pos, hdr, ext, next)
  {
    hide HeaderAt, Tiled, Padded, Filled, HasKey, IsGlobalRefusedKey, Pax.ParseFrom, GnuLongValue, LongText, EntryKey;
    FilledIsPadded(hdr.size);
    if hdr.size <= Padded(hdr.size) && pos + 512 + Padded(hdr.size) <= |bytes| {
      var body := bytes[pos + 512..pos + 512 + hdr.size];
      LongExactly(env.utf8, body, if ext.LongName? || ext.LongLink? then ext.value else "");
    }
  }

  lemma FlagsExactly(tf: Byte)
    ensures IsExtension(tf) <==> ExtensionFlag(tf)
  {
  }

  lemma HeaderInside(env: Env, bytes: seq<Byte>, pos: nat, hdr: Header)
    requires HeaderAt(env, bytes, pos, hdr)
    ensures pos + 512 <= |bytes|
  {
  }

  /** What the walk reads as an extension header, its value and where the next header is: exactly the
      x, X, g, L and K headers whose body fits, is within the caps and is well formed. */
  lemma ExtensionExactly(env: Env, bytes: seq<Byte>, pos: nat, ext: Ext, next: nat)
    ensures TokenAt(env, bytes, pos) == Extension(ext, next) <==> exists hdr: Header :: ExtStands(env, bytes, pos, hdr, ext, next)
  {
    hide HeaderAt, HeadAt, ExtAt, ExtStands, ExtensionFlag, EndsAt;
    if hdr: Header :| ExtStands(env, bytes, pos, hdr, ext, next) {
      StandsIsHeader(env, bytes, pos, hdr, ext, next);
      HeadExactly(env, bytes, pos, hdr);
      HeaderInside(env, bytes, pos, hdr);
      KindExactly(env, bytes, pos, hdr, ext, next);
    }
    if TokenAt(env, bytes, pos) == Extension(ext, next) {
      var hdr := HeadAt(env, bytes, pos).hdr;
      HeadExactly(env, bytes, pos, hdr);
      KindExactly(env, bytes, pos, hdr, ext, next);
    }
  }

  lemma StandsIsHeader(env: Env, bytes: seq<Byte>, pos: nat, hdr: Header, ext: Ext, next: nat)
    requires ExtStands(env, bytes, pos, hdr, ext, next)
    ensures HeaderAt(env, bytes, pos, hdr) && IsExtension(hdr.typeflag)
  {
    hide HeaderAt, Tiled, Filled, LongText, EntryKey;
  }

  lemma KindExactly(env: Env, bytes: seq<Byte>, pos: nat, hdr: Header, ext: Ext, next: nat)
    requires HeaderAt(env, bytes, pos, hdr) && IsExtension(hdr.typeflag) && pos + BLOCK <= |bytes|
    ensures ExtAt(env, bytes, pos, hdr) == Ok((ext, next)) <==> ExtStands(env, bytes, pos, hdr, ext, next)
  {
    hide HeaderAt, ExtAt, ExtStands;
    if IsPaxHeader(hdr.typeflag) {
      PaxHeaderExactly(env, bytes, pos, hdr, ext, next);
    } else {
      LongHeaderExactly(env, bytes, pos, hdr, ext, next);
    }
  }

  // ---------------------------------------------------------------- where an entry's body lies

  /** Start of block j after the block at pos. */
  function Blk(pos: nat, j: nat): nat {
    pos + 512 + 512 * j
  }

  /** The first `count` map entries from `at` on are filled: 24 bytes each, two numbers of 12. */
  ghost predicate MapFilled(bytes: seq<Byte>, at: nat, count: nat)
    requires at + 24 * count <= |bytes|
  {
    forall i :: 0 <= i < count ==> bytes[at + 24 * i] != 0 && bytes[at + 24 * i + 12] != 0
  }

  /** The header block at pos is of the GNU format: "ustar" and two blanks. */
  ghost predicate GnuFormat(bytes: seq<Byte>, pos: nat)
    requires pos + 512 <= |bytes|
  {
    bytes[pos + 257..pos + 265] == [0x75, 0x73, 0x74, 0x61, 0x72, 0x20, 0x20, 0x00]
  }

  /** After the header block at pos come k extension blocks: byte 504 is zero in the last one only, and
      every one that is continued has 21 filled map entries. */
  ghost predicate Chain(bytes: seq<Byte>, pos: nat, k: nat) {
    && k >= 1 && Blk(pos, k) <= |bytes|
    && (forall j :: 0 <= j < k - 1 ==> bytes[Blk(pos, j) + 504] != 0 && MapFilled(bytes, Blk(pos, j), 21))
    && bytes[Blk(pos, k - 1) + 504] == 0
  }

  /** The body of the entry whose header block is at pos starts right after that block; after the
      extension blocks, when it is a sparse header that says there are some. */
  ghost predicate BodyAt(bytes: seq<Byte>, pos: nat, tf: Byte, bodyStart: nat)
    requires pos + 512 <= |bytes|
  {
    if tf != 0x53 || bytes[pos + 482] == 0 then bodyStart == pos + 512
    else GnuFormat(bytes, pos) && MapFilled(bytes, pos + 386, 4) && exists k: nat :: Chain(bytes, pos, k) && bodyStart == Blk(pos, k)
  }

  lemma BlockByte(bytes: seq<Byte>, pos: nat, i: nat)
    requires pos + 512 <= |bytes| && i < 512
    ensures bytes[pos..pos + 512][i] == bytes[pos + i]
  {
  }

  lemma MapExactly(bytes: seq<Byte>, pos: nat, offset: nat, count: nat)
    requires pos + 512 <= |bytes| && offset + 24 * count <= 512
    ensures SparseMapFull(bytes[pos..pos + 512], offset, count) <==> MapFilled(bytes, pos + offset, count)
  {
    var block := bytes[pos..pos + 512];
    forall i | 0 <= i < count
      ensures block[offset + i * 24] == bytes[pos + offset + 24 * i]
      ensures block[offset + i * 24 + 12] == bytes[pos + offset + 24 * i + 12]
    {
      BlockByte(bytes, pos, offset + i * 24);
      BlockByte(bytes, pos, offset + i * 24 + 12);
    }
  }

  /** The chain of extension blocks from block j of the header on. */
  lemma {:induction false} SparseEndMeans(bytes: seq<Byte>, pos: nat, j: nat, end: nat) returns (k: nat)
    requires SparseEnd(bytes, Blk(pos, j)) == Ok(end)
    ensures k > j && end == Blk(pos, k) <= |bytes|
    ensures forall i :: j <= i < k - 1 ==> bytes[Blk(pos, i) + 504] != 0 && MapFilled(bytes, Blk(pos, i), 21)
    ensures bytes[Blk(pos, k - 1) + 504] == 0
    decreases |bytes| - Blk(pos, j)
  {
    hide SparseMapFull, MapFilled;
    var at := Blk(pos, j);
    BlockByte(bytes, at, 504);
    MapExactly(bytes, at, 0, 21);
    if bytes[at + 504] == 0 {
      k := j + 1;
    } else {
      k := SparseEndMeans(bytes, pos, j + 1, end);
    }
  }

  lemma {:induction false} SparseEndCan(bytes: seq<Byte>, pos: nat, j: nat, k: nat)
    requires Chain(bytes, pos, k) && j < k
    ensures SparseEnd(bytes, Blk(pos, j)) == Ok(Blk(pos, k))
    decreases k - j
  {
    hide SparseMapFull, MapFilled;
    var at := Blk(pos, j);
    assert Blk(pos, j + 1) == at + 512 <= Blk(pos, k);
    BlockByte(bytes, at, 504);
    MapExactly(bytes, at, 0, 21);
    if j < k - 1 { SparseEndCan(bytes, pos, j + 1, k); }
  }

  lemma GnuExactly(bytes: seq<Byte>, pos: nat)
    requires pos + 512 <= |bytes|
    ensures HasGnuMagic(bytes[pos..pos + 512]) <==> GnuFormat(bytes, pos)
  {
    var inner, outer := bytes[pos..pos + 512][257..265], bytes[pos + 257..pos + 265];
    forall i | 0 <= i < 8
      ensures inner[i] == outer[i]
    {
      BlockByte(bytes, pos, 257 + i);
    }
    assert inner == outer;
  }

  lemma ExtensionsExactly(bytes: seq<Byte>, pos: nat, bodyStart: nat)
    requires pos + 512 <= |bytes|
    ensures SparseExtensions(bytes, pos + 512, bytes[pos..pos + 512]) == Ok(bodyStart)
       <==> GnuFormat(bytes, pos) && MapFilled(bytes, pos + 386, 4) && exists k: nat :: Chain(bytes, pos, k) && bodyStart == Blk(pos, k)
  {
    hide SparseEnd, Chain, HasGnuMagic, SparseMapFull, MapFilled, GnuFormat;
    GnuExactly(bytes, pos);
    MapExactly(bytes, pos, 386, 4);
    assert Blk(pos, 0) == pos + 512;
    if SparseEnd(bytes, pos + 512) == Ok(bodyStart) {
      var k := SparseEndMeans(bytes, pos, 0, bodyStart);
      assert Chain(bytes, pos, k) by { ChainIs(bytes, pos, k); }
    }
    if k: nat :| Chain(bytes, pos, k) && bodyStart == Blk(pos, k) {
      ChainLong(bytes, pos, k);
      SparseEndCan(bytes, pos, 0, k);
    }
  }

  lemma ChainIs(bytes: seq<Byte>, pos: nat, k: nat)
    requires k >= 1 && Blk(pos, k) <= |bytes|
    requires forall i :: 0 <= i < k - 1 ==> bytes[Blk(pos, i) + 504] != 0 && MapFilled(bytes, Blk(pos, i), 21)
    requires bytes[Blk(pos, k - 1) + 504] == 0
    ensures Chain(bytes, pos, k)
  {
  }

  lemma ChainLong(bytes: seq<Byte>, pos: nat, k: nat)
    requires Chain(bytes, pos, k)
    ensures k >= 1
  {
  }

  /** Where the walk takes a body to lie, its room and its size cap. */
  lemma PlaceExactly(env: Env, bytes: seq<Byte>, pos: nat, e: Entry, placed: Entry)
    requires pos + 512 <= |bytes|
    ensures PlaceEntry(env, bytes, pos + 512, bytes[pos..pos + 512], e) == Ok(placed)
       <==> && placed == e.(bodyStart := placed.bodyStart, paddedSize := Filled(e.hdr.size))
            && e.hdr.size <= env.policy.maxEntryBytes
            && BodyAt(bytes, pos, e.hdr.typeflag, placed.bodyStart)
            && placed.bodyStart + placed.paddedSize <= |bytes|
  {
    hide SparseExtensions, Filled, Padded, GnuFormat, MapFilled, Chain;
    FilledIsPadded(e.hdr.size);
    BlockByte(bytes, pos, 482);
    ExtensionsExactly(bytes, pos, placed.bodyStart);
  }

  // ---------------------------------------------------------------- what an entry takes from the records

  /** A record with this key and a value that is not empty. */
  ghost function Given(a: Pending, key: string): Option<string> {
    match a.pax
    case None => None
    case Some(records) => if key in records && records[key] != "" then Some(records[key]) else None
  }

  ghost predicate Absent(a: Pending, key: string) {
    a.pax == None || key !in a.pax.value
  }

  ghost predicate EntryFlagOnly(tf: Byte) {
    tf == 0x31 || tf == 0x32 || tf == 0x33 || tf == 0x34 || tf == 0x35 || tf == 0x36
  }

  /** The name an entry gets: an L record's; or the pax sparse name, or else the pax path, which must not
      differ from it; or else the header's own, which must be UTF-8. */
  ghost predicate NameTaken(hdr: Header, a: Pending, name: string) {
    var sparse, path := Given(a, "GNU.sparse.name"), Given(a, "path");
    && (a.longName.Some? ==> name == a.longName.value)
    && (sparse.Some? ==> name == sparse.value)
    && (sparse.None? && path.Some? ==> name == path.value)
    && (a.longName.None? && sparse.None? && path.None? ==> name == hdr.name && hdr.nameIsUtf8)
  }

  /** The link target: a K record's or the pax linkpath, which must not differ, and then the entry is a
      hard link (1) or a symbolic link (2); or else the header's own, UTF-8 if the entry is a link. */
  ghost predicate LinkTaken(hdr: Header, a: Pending, link: string) {
    var path := Given(a, "linkpath");
    && (a.longLink.Some? ==> link == a.longLink.value)
    && (path.Some? ==> link == path.value)
    && (a.longLink.None? && path.None? ==> link == hdr.linkname)
    && if hdr.typeflag == 0x31 || hdr.typeflag == 0x32 then a.longLink.None? && path.None? ==> hdr.linknameIsUtf8
       else a.longLink.None? && path.None?
  }

  /** The size: the pax size, a canonical decimal of at most 2^53 - 1, or else the header's. */
  ghost predicate SizeTaken(hdr: Header, a: Pending, size: nat) {
    if Absent(a, "size") then size == hdr.size
    else size <= 9007199254740991 && a.pax.value["size"] == Pax.NumberString(size)
  }

  /** Everything the walk says of the entry whose header hdr is at pos, after the records a. */
  ghost predicate Described(env: Env, bytes: seq<Byte>, pos: nat, hdr: Header, a: Pending, e: Entry)
    requires pos + 512 <= |bytes|
  {
    // a volume label and a Solaris ACL take no records
    && (hdr.typeflag == 0x56 || hdr.typeflag == 0x41 ==> a.pax == None && a.longName == None && a.longLink == None)
    && NameTaken(hdr, a, e.hdr.name) && LinkTaken(hdr, a, e.hdr.linkname) && SizeTaken(hdr, a, e.hdr.size)
    && e.hdr == hdr.(name := e.hdr.name, linkname := e.hdr.linkname, size := e.hdr.size, mtime := e.hdr.mtime)
    && e.hdr.mtime == (if Absent(a, "mtime") then hdr.mtime
                       else match env.paxTime(a.pax.value["mtime"]) case None => hdr.mtime case Some(t) => t)
    && (e.slashDirectory <==> (hdr.typeflag == 0x30 || hdr.typeflag == 0 || hdr.typeflag == 0x37)
                              && e.hdr.name != "" && e.hdr.name[|e.hdr.name| - 1] == '/')
    // links, devices, directories and FIFOs have no body
    && (EntryFlagOnly(hdr.typeflag) || e.slashDirectory ==> hdr.size == 0 && e.hdr.size == 0)
    && (e.gnuSparse <==> (a.pax.Some? && exists key :: key in a.pax.value && ("GNU.sparse." <= key || key == "SCHILY.realsize" || key == "SUN.holesdata"))
                         || (hdr.typeflag != 0x53 && GnuFormat(bytes, pos) && exists i :: pos + 386 <= i < pos + 495 && bytes[i] != 0))
    && e.headerAt == pos
    && BodyAt(bytes, pos, hdr.typeflag, e.bodyStart)
    && e.paddedSize == Filled(e.hdr.size) && e.hdr.size <= env.policy.maxEntryBytes
    && e.bodyStart + e.paddedSize <= |bytes|
  }

  lemma SizeExactly(hdr: Header, a: Pending, size: nat)
    ensures EntrySize(hdr, a.pax).Ok? && EntrySize(hdr, a.pax).value.0 == size <==> SizeTaken(hdr, a, size)
    ensures EntrySize(hdr, a.pax).Ok? ==>
              var r := EntrySize(hdr, a.pax).value; (hdr.size == 0 && r.1 == 0 <==> hdr.size == 0 && r.0 == 0)
  {
    hide Pax.PaxSize, Pax.NumberString;
    if a.pax.Some? && "size" in a.pax.value {
      Pax.PaxSizeExactly(a.pax.value["size"], size);
    }
  }

  lemma NamesExactly(hdr: Header, a: Pending, name: string, link: string)
    ensures EntryNames(hdr, a) == Ok((name, link))
            && (a.longLink.Some? || PaxValue(a.pax, Pax.LINKPATH).Some? ==> IsLink(hdr.typeflag))
       <==> NameTaken(hdr, a, name) && LinkTaken(hdr, a, link)
  {
  }

  lemma SparseExactly(bytes: seq<Byte>, pos: nat, hdr: Header, a: Pending)
    requires pos + 512 <= |bytes|
    ensures (a.pax.Some? && HasKey(a.pax.value, IsSparseKey)) || (hdr.typeflag != TF_GNU_SPARSE && OldGnuSparseFieldsSet(bytes[pos..pos + 512]))
       <==> (a.pax.Some? && exists key :: key in a.pax.value && ("GNU.sparse." <= key || key == "SCHILY.realsize" || key == "SUN.holesdata"))
            || (hdr.typeflag != 0x53 && GnuFormat(bytes, pos) && exists i :: pos + 386 <= i < pos + 495 && bytes[i] != 0)
  {
    hide HasGnuMagic, GnuFormat;
    GnuExactly(bytes, pos);
    var block := bytes[pos..pos + 512];
    if i :| 386 <= i < 495 && block[i] != 0 {
      assert bytes[pos + i] != 0;
    }
    if i :| pos + 386 <= i < pos + 495 && bytes[i] != 0 {
      var d := i - pos;
      assert block[d] != 0;
    }
    if a.pax.Some? {
      if key :| key in a.pax.value && ("GNU.sparse." <= key || key == "SCHILY.realsize" || key == "SUN.holesdata") {
        assert IsSparseKey(key);
      }
    }
  }

  /** The walk accepts an entry header, after the records a, with the entry e exactly when e is what the
      format describes. */
  lemma EntryExactly(env: Env, bytes: seq<Byte>, pos: nat, hdr: Header, a: Pending, e: Entry)
    requires pos + 512 <= |bytes|
    ensures EntryAt(env, bytes, pos, hdr, a, true) == Ok(e) <==> Described(env, bytes, pos, hdr, a, e)
  {
    hide BodyAt, Filled, PlaceEntry, EntrySize, EntryNames, NameTaken, LinkTaken, SizeTaken, HasKey, OldGnuSparseFieldsSet, GnuFormat, Given;
    SizeExactly(hdr, a, e.hdr.size);
    NamesExactly(hdr, a, e.hdr.name, e.hdr.linkname);
    SparseExactly(bytes, pos, hdr, a);
    var r := ResolveEntry(env, hdr, bytes[pos..pos + 512], a, pos);
    if r.Ok? { PlaceExactly(env, bytes, pos, r.value, e); }
  }

  // ---------------------------------------------------------------- the records before an entry

  /** At most one pax header for the next entry, one L record and one K record; g headers do not count. */
  ghost predicate NoRepeats(exts: seq<Ext>) {
    forall i, j :: 0 <= i < j < |exts| ==>
      !(exts[i].Local? && exts[j].Local?) && !(exts[i].LongName? && exts[j].LongName?) && !(exts[i].LongLink? && exts[j].LongLink?)
  }

  /** a holds just the records of exts. */
  ghost predicate Holds(exts: seq<Ext>, a: Pending) {
    && (forall r :: Local(r) in exts <==> a.pax == Some(r))
    && (forall v :: LongName(v) in exts <==> a.longName == Some(v))
    && (forall v :: LongLink(v) in exts <==> a.longLink == Some(v))
  }

  ghost predicate Carries<T>(exts: seq<Ext>, of: Ext -> Option<T>, v: T) {
    exists i :: 0 <= i < |exts| && of(exts[i]) == Some(v)
  }

  lemma {:induction false} PickHas<T>(exts: seq<Ext>, of: Ext -> Option<T>, v: T)
    ensures v in Pick(exts, of) <==> Carries(exts, of, v)
  {
    if exts != [] {
      var t := exts[1..];
      PickHas(t, of, v);
      var first := match of(exts[0]) case None => [] case Some(v) => [v];
      assert Pick(exts, of) == first + Pick(t, of);
      if Carries(t, of, v) {
        var i :| 0 <= i < |t| && of(t[i]) == Some(v);
        assert exts[i + 1] == t[i];
      }
      if Carries(exts, of, v) && of(exts[0]) != Some(v) {
        var i :| 0 <= i < |exts| && of(exts[i]) == Some(v);
        var d := i - 1;
        assert t[d] == exts[i];
      }
    }
  }

  lemma {:induction false} PickCounts<T>(exts: seq<Ext>, of: Ext -> Option<T>)
    ensures |Pick(exts, of)| == 0 <==> forall i :: 0 <= i < |exts| ==> of(exts[i]).None?
    ensures |Pick(exts, of)| <= 1 <==> forall i, j :: 0 <= i < j < |exts| ==> !(of(exts[i]).Some? && of(exts[j]).Some?)
  {
    if exts != [] {
      PickCounts(exts[1..], of);
      assert exts == [exts[0]] + exts[1..];
      Shift(exts, (e: Ext) => of(e).Some?);
    }
  }

  /** No two of a kind in a sequence: none in its tail, and none in the tail when the first is one. */
  lemma Shift(exts: seq<Ext>, kind: Ext -> bool)
    requires exts != []
    ensures (forall i, j :: 0 <= i < j < |exts| ==> !(kind(exts[i]) && kind(exts[j])))
       <==> && (forall i, j :: 0 <= i < j < |exts[1..]| ==> !(kind(exts[1..][i]) && kind(exts[1..][j])))
            && (kind(exts[0]) ==> forall j :: 1 <= j < |exts| ==> !kind(exts[j]))
  {
    var t := exts[1..];
    if forall i, j :: 0 <= i < j < |exts| ==> !(kind(exts[i]) && kind(exts[j])) {
      forall i, j | 0 <= i < j < |t| ensures !(kind(t[i]) && kind(t[j])) {
        assert t[i] == exts[i + 1] && t[j] == exts[j + 1];
      }
    }
    if (forall i, j :: 0 <= i < j < |t| ==> !(kind(t[i]) && kind(t[j]))) && (kind(exts[0]) ==> forall j :: 1 <= j < |exts| ==> !kind(exts[j])) {
      forall i, j | 0 <= i < j < |exts| ensures !(kind(exts[i]) && kind(exts[j])) {
        if i > 0 {
          var d, f := i - 1, j - 1;
          assert t[d] == exts[i] && t[f] == exts[j];
        }
      }
    }
  }

  lemma KindsCounted(exts: seq<Ext>)
    ensures AtMostOneEach(exts) <==> NoRepeats(exts)
  {
    hide Pick;
    PickCounts(exts, LocalOf);
    PickCounts(exts, NameOf);
    PickCounts(exts, LinkOf);
  }

  lemma OnlyHeld(exts: seq<Ext>)
    ensures forall r :: r in Locals(exts) <==> Local(r) in exts
    ensures forall v :: v in Names(exts) <==> LongName(v) in exts
    ensures forall v :: v in Links(exts) <==> LongLink(v) in exts
  {
    hide Pick;
    forall r ensures r in Locals(exts) <==> Local(r) in exts { PickHas(exts, LocalOf, r); }
    forall v ensures v in Names(exts) <==> LongName(v) in exts { PickHas(exts, NameOf, v); }
    forall v ensures v in Links(exts) <==> LongLink(v) in exts { PickHas(exts, LinkOf, v); }
  }

  /** The records collected for an entry are the ones its extension headers carry. */
  lemma CollectedExactly(exts: seq<Ext>)
    ensures AtMostOneEach(exts) <==> NoRepeats(exts)
    ensures NoRepeats(exts) ==> Holds(exts, Collected(exts))
  {
    hide Locals, Names, Links, NoRepeats;
    KindsCounted(exts);
    OnlyHeld(exts);
  }

  lemma HoldsOne(exts: seq<Ext>, a: Pending, b: Pending)
    requires Holds(exts, a) && Holds(exts, b)
    ensures a == b
  {
    if a.pax.Some? { assert Local(a.pax.value) in exts; }
    if b.pax.Some? { assert Local(b.pax.value) in exts; }
    if a.longName.Some? { assert LongName(a.longName.value) in exts; }
    if b.longName.Some? { assert LongName(b.longName.value) in exts; }
    if a.longLink.Some? { assert LongLink(a.longLink.value) in exts; }
    if b.longLink.Some? { assert LongLink(b.longLink.value) in exts; }
  }

  // ---------------------------------------------------------------- whole archives

  /** The extension headers exts stand one after the other from pos to end. */
  ghost predicate SpanStands(env: Env, bytes: seq<Byte>, pos: nat, exts: seq<Ext>, end: nat)
    decreases |exts|
  {
    if exts == [] then end == pos
    else exists hdr: Header, next: nat :: ExtStands(env, bytes, pos, hdr, exts[0], next) && SpanStands(env, bytes, next, exts[1..], end)
  }

  /** From pos on stand a member's extension headers and, right after them, its entry header. */
  ghost predicate MemberStands(env: Env, bytes: seq<Byte>, pos: nat, m: Member) {
    && SpanStands(env, bytes, pos, m.exts, m.entry.headerAt) && NoRepeats(m.exts)
    && exists hdr: Header, a: Pending ::
         && HeaderAt(env, bytes, m.entry.headerAt, hdr) && !ExtensionFlag(hdr.typeflag) && Holds(m.exts, a)
         && m.entry.headerAt + 512 <= |bytes| && Described(env, bytes, m.entry.headerAt, hdr, a, m.entry)
  }

  /** The archive from pos on: the members, each beginning where the body before it ends, then global
      headers, then the end. */
  ghost predicate Written(env: Env, bytes: seq<Byte>, pos: nat, ms: seq<Member>, trailing: seq<Ext>)
    decreases |ms|
  {
    if ms == [] then
      && (forall i :: 0 <= i < |trailing| ==> trailing[i].Global?)
      && exists end: nat :: SpanStands(env, bytes, pos, trailing, end) && EndsAt(bytes, end)
    else
      MemberStands(env, bytes, pos, ms[0]) && Written(env, bytes, ms[0].entry.bodyStart + ms[0].entry.paddedSize, ms[1..], trailing)
  }

  lemma {:induction false} SpanExactly(env: Env, bytes: seq<Byte>, pos: nat, exts: seq<Ext>, end: nat)
    ensures SpanEnd(env, bytes, pos, exts) == Some(end) <==> SpanStands(env, bytes, pos, exts, end)
    decreases |exts|
  {
    hide TokenAt, ExtStands;
    if exts != [] {
      var t := TokenAt(env, bytes, pos);
      if t.Extension? && t.ext == exts[0] {
        ExtensionExactly(env, bytes, pos, exts[0], t.next);
        SpanExactly(env, bytes, t.next, exts[1..], end);
      }
      if hdr: Header, next: nat :| ExtStands(env, bytes, pos, hdr, exts[0], next) && SpanStands(env, bytes, next, exts[1..], end) {
        ExtensionExactly(env, bytes, pos, exts[0], next);
      }
    }
  }

  lemma EntryTokenExactly(env: Env, bytes: seq<Byte>, pos: nat, hdr: Header)
    ensures TokenAt(env, bytes, pos) == EntryHeader(hdr) <==> HeaderAt(env, bytes, pos, hdr) && !ExtensionFlag(hdr.typeflag)
  {
    hide HeaderAt, HeadAt, ExtAt, EndsAt, IsExtension, ExtensionFlag;
    HeadExactly(env, bytes, pos, hdr);
    FlagsExactly(hdr.typeflag);
  }

  lemma IsEntryExactly(env: Env, bytes: seq<Byte>, pos: nat, exts: seq<Ext>, e: Entry)
    ensures IsEntry(env, bytes, pos, exts, e)
       <==> && NoRepeats(exts) && e.headerAt == pos
            && exists hdr: Header, a: Pending ::
                 && HeaderAt(env, bytes, pos, hdr) && !ExtensionFlag(hdr.typeflag) && Holds(exts, a)
                 && pos + 512 <= |bytes| && Described(env, bytes, pos, hdr, a, e)
  {
    hide TokenAt, HeaderAt, ExtensionFlag, NoRepeats, Holds, Described, EntryAt, AtMostOneEach, Collected;
    CollectedExactly(exts);
    if IsEntry(env, bytes, pos, exts, e) {
      var hdr := TokenAt(env, bytes, pos).hdr;
      EntryTokenExactly(env, bytes, pos, hdr);
      EntryExactly(env, bytes, pos, hdr, Collected(exts), e);
    }
    if hdr: Header, a: Pending :|
        && NoRepeats(exts) && HeaderAt(env, bytes, pos, hdr) && !ExtensionFlag(hdr.typeflag) && Holds(exts, a)
        && pos + 512 <= |bytes| && Described(env, bytes, pos, hdr, a, e)
    {
      HoldsOne(exts, a, Collected(exts));
      EntryTokenExactly(env, bytes, pos, hdr);
      EntryExactly(env, bytes, pos, hdr, a, e);
    }
  }

  lemma {:induction false} CollectedNothing(exts: seq<Ext>)
    ensures AtMostOneEach(exts) && Collected(exts) == NOTHING <==> forall i :: 0 <= i < |exts| ==> exts[i].Global?
  {
    hide AtMostOneEach, Collected;
    CollectedExactly(exts);
    if forall i :: 0 <= i < |exts| ==> exts[i].Global? {
      assert Holds(exts, NOTHING);
      HoldsOne(exts, NOTHING, Collected(exts));
    }
    if AtMostOneEach(exts) && Collected(exts) == NOTHING {
      forall i | 0 <= i < |exts| ensures exts[i].Global? {
        assert exts[i] in exts;
        assert Holds(exts, NOTHING);
      }
    }
  }

  lemma {:induction false} WrittenExactly(env: Env, bytes: seq<Byte>, pos: nat, ms: seq<Member>, trailing: seq<Ext>)
    ensures Derives(env, bytes, pos, [], ms, trailing) <==> Written(env, bytes, pos, ms, trailing)
    decreases |ms|
  {
    hide TokenAt, EndsAt, IsEntry, NoRepeats, Described, AtMostOneEach, Collected, SpanEnd, SpanStands, HeaderAt, ExtensionFlag, Holds;
    if ms == [] {
      var at := SpanEnd(env, bytes, pos, trailing);
      assert [] + trailing == trailing;
      CollectedNothing(trailing);
      if at.Some? {
        SpanExactly(env, bytes, pos, trailing, at.value);
        EndExactly(env, bytes, at.value);
      }
      if end: nat :| SpanStands(env, bytes, pos, trailing, end) && EndsAt(bytes, end) {
        SpanExactly(env, bytes, pos, trailing, end);
      }
    } else {
      var m := ms[0];
      assert m.exts[0..] == m.exts;
      SpanExactly(env, bytes, pos, m.exts, m.entry.headerAt);
      IsEntryExactly(env, bytes, m.entry.headerAt, m.exts, m.entry);
      var at := SpanEnd(env, bytes, pos, m.exts);
      if at.Some? { IsEntryExactly(env, bytes, at.value, m.exts, m.entry); }
      WrittenExactly(env, bytes, m.entry.bodyStart + m.entry.paddedSize, ms[1..], trailing);
    }
  }

  lemma {:induction false} EntriesAre(ms: seq<Member>, es: seq<Entry>)
    ensures Entries(ms) == es <==> |ms| == |es| && forall i :: 0 <= i < |es| ==> es[i] == ms[i].entry
  {
    if ms != [] && es != [] {
      EntriesAre(ms[1..], es[1..]);
      assert es == [es[0]] + es[1..];
      assert Entries(ms) == [ms[0].entry] + Entries(ms[1..]);
      assert Entries(ms)[1..] == Entries(ms[1..]);
      if |ms| == |es| && forall i :: 0 <= i < |es| ==> es[i] == ms[i].entry {
        forall i | 0 <= i < |es[1..]| ensures es[1..][i] == ms[1..][i].entry {
          assert es[i + 1] == ms[i + 1].entry;
        }
      }
      if Entries(ms) == es {
        forall i | 0 <= i < |es| ensures es[i] == ms[i].entry {
          if i > 0 {
            var d := i - 1;
            assert es[1..][d] == ms[1..][d].entry;
          }
        }
      }
    }
  }

  /** The walk succeeds with these entries exactly when the archive is written that way. */
  lemma WalkReadsExactly(env: Env, bytes: seq<Byte>, es: seq<Entry>)
    ensures WalkFrom(env, bytes, 0, NOTHING, 0) == Ok(es)
       <==> exists ms: seq<Member>, trailing: seq<Ext> ::
              && Written(env, bytes, 0, ms, trailing) && |ms| <= env.policy.maxEntries
              && |ms| == |es| && forall i :: 0 <= i < |es| ==> es[i] == ms[i].entry
  {
    hide WalkFrom, Derives, Written, Entries;
    WalkExactly(env, bytes, es);
    if ms: seq<Member>, trailing: seq<Ext> :| Derives(env, bytes, 0, [], ms, trailing) && Entries(ms) == es && |ms| <= env.policy.maxEntries {
      WrittenExactly(env, bytes, 0, ms, trailing);
      EntriesAre(ms, es);
    }
    if ms: seq<Member>, trailing: seq<Ext> :|
        && Written(env, bytes, 0, ms, trailing) && |ms| <= env.policy.maxEntries
        && |ms| == |es| && forall i :: 0 <= i < |es| ==> es[i] == ms[i].entry
    {
      WrittenExactly(env, bytes, 0, ms, trailing);
      EntriesAre(ms, es);
    }
  }

  /** What that says of one entry: its body starts right after its header block, or after the extension
      blocks, has the size the header and the records give, and is followed by the next member. */
  lemma {:induction false} EveryBodyPlaced(env: Env, bytes: seq<Byte>, pos: nat, ms: seq<Member>, trailing: seq<Ext>, i: nat)
    requires Written(env, bytes, pos, ms, trailing) && i < |ms|
    ensures var e := ms[i].entry;
            && e.headerAt + 512 <= |bytes| && BodyAt(bytes, e.headerAt, e.hdr.typeflag, e.bodyStart)
            && e.paddedSize == Filled(e.hdr.size) && e.hdr.size <= env.policy.maxEntryBytes
            && SpanStands(env, bytes, if i == 0 then pos else ms[i - 1].entry.bodyStart + ms[i - 1].entry.paddedSize, ms[i].exts, e.headerAt)
    decreases i
  {
    hide BodyAt, Filled, NameTaken, LinkTaken, SizeTaken, SpanStands, HeaderAt, NoRepeats, Holds, GnuFormat;
    if i > 0 {
      EveryBodyPlaced(env, bytes, ms[0].entry.bodyStart + ms[0].entry.paddedSize, ms[1..], trailing, i - 1);
    }
  }
}
