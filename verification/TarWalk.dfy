/**
 The tar reader's block walk (lib/archive-tar-read.js, `_walk`) and the size accounting of
 `extractEntries`. The 512-byte header codec, the UTF-8 codec and the pax time syntax are
 parameters of the walk.
 */
module TarWalk {
  import opened Arith
  import opened Bytes
  import opened Results
  import Pax = TarPax

  const BLOCK := 512

  const TF_REGULAR: Byte := 0x30
  const TF_REGULAR_LEGACY: Byte := 0x00
  const TF_HARDLINK: Byte := 0x31
  const TF_SYMLINK: Byte := 0x32
  const TF_CHARDEV: Byte := 0x33
  const TF_BLOCKDEV: Byte := 0x34
  const TF_DIRECTORY: Byte := 0x35
  const TF_FIFO: Byte := 0x36
  const TF_CONTIGUOUS: Byte := 0x37
  const TF_PAX_EXTENDED: Byte := 0x78      // x
  const TF_PAX_GLOBAL: Byte := 0x67        // g
  const TF_SOLARIS_EXTENDED: Byte := 0x58  // X
  const TF_GNU_LONGNAME: Byte := 0x4c      // L
  const TF_GNU_LONGLINK: Byte := 0x4b      // K
  const TF_GNU_DUMPDIR: Byte := 0x44       // D
  const TF_GNU_VOLHDR: Byte := 0x56        // V
  const TF_SOLARIS_ACL: Byte := 0x41       // A
  const TF_GNU_SPARSE: Byte := 0x53        // S

  const GNU_LONG_RECORD_MAX := 65536
  const H_MAGIC := 257
  const H_GNU_SPARSE_MAP := 386
  const H_GNU_SPARSE_ISEXTENDED := 482
  const H_GNU_REALSIZE_END := 495
  const X_GNU_SPARSE_ISEXTENDED := 504
  const GNU_SPARSE_ENTRY := 24
  const GNU_SPARSE_OFFSET := 12
  const GNU_SPARSE_HEADER_ENTRIES := 4
  const GNU_SPARSE_EXTENSION_ENTRIES := 21
  const GNU_MAGIC: seq<Byte> := [0x75, 0x73, 0x74, 0x61, 0x72, 0x20, 0x20, 0x00]  // "ustar  \0"

  type Records = map<string, string>

  datatype Header = Header(
    name: string, mode: int, uid: int, gid: int, size: nat, mtime: real, typeflag: Byte,
    linkname: string, uname: string, gname: string, nameIsUtf8: bool, linknameIsUtf8: bool)

  datatype Entry = Entry(
    hdr: Header,              // after pax and GNU records were applied
    gnuSparse: bool, slashDirectory: bool,
    headerAt: nat, bodyStart: nat, paddedSize: nat)

  datatype Error =
    | BadHeader | BadPax(p: Pax.PaxError) | BadPaxSize | BadLongRecord | NameNotUtf8
    | RedundantExtendedHeader | GlobalEntryAttribute | DanglingExtendedHeader | LongNamePaxConflict
    | SizeOnNonFile | LinkTargetOnNonLink | TooManyEntries | EntryTooLarge | BadSparseHeader | TruncatedEntry

  datatype Policy = Policy(maxEntries: nat, maxEntryBytes: nat, maxTotalBytes: nat)

  /** What the walk takes from other files: the header codec, the text codec and the pax time syntax. */
  datatype Env = Env(
    policy: Policy, utf8: Pax.Utf8,
    parseHeader: seq<Byte> -> Result<Header, Error>, paxTime: string -> Option<real>)

  // ---------------------------------------------------------------- blocks

  predicate IsZeroBlock(block: seq<Byte>) {
    forall i :: 0 <= i < |block| ==> block[i] == 0
  }

  predicate HasGnuMagic(block: seq<Byte>)
    requires |block| == BLOCK
  {
    block[H_MAGIC..H_MAGIC + 8] == GNU_MAGIC
  }

  predicate SparseMapFull(block: seq<Byte>, offset: nat, count: nat)
    requires |block| == BLOCK && offset + count * GNU_SPARSE_ENTRY <= BLOCK
  {
    forall i :: 0 <= i < count ==>
      block[offset + i * GNU_SPARSE_ENTRY] != 0 && block[offset + i * GNU_SPARSE_ENTRY + GNU_SPARSE_OFFSET] != 0
  }

  predicate OldGnuSparseFieldsSet(block: seq<Byte>)
    requires |block| == BLOCK
  {
    HasGnuMagic(block) && exists i :: H_GNU_SPARSE_MAP <= i < H_GNU_REALSIZE_END && block[i] != 0
  }

  /** `Math.ceil(size / 512) * 512` */
  function Padded(size: nat): (p: nat)
    ensures size <= p < size + BLOCK
  {
    (size + 511) / BLOCK * BLOCK
  }

  /** `_readExtensionBody`: the body of an extension header, and the position after it. */
  function ReadExtensionBody(bytes: seq<Byte>, pos: nat, size: nat, maxBytes: nat): (r: Result<(seq<Byte>, nat), Error>)
    requires pos <= |bytes|
    ensures r.Ok? ==> r.value.1 == pos + Padded(size) <= |bytes| && r.value.0 == bytes[pos..pos + size]
  {
    if size > maxBytes then Err(EntryTooLarge)
    else if pos + Padded(size) > |bytes| then Err(TruncatedEntry)
    else Ok((bytes[pos..pos + size], pos + Padded(size)))
  }

  /** Extension blocks of a GNU sparse header, from pos on. */
  function SparseEnd(bytes: seq<Byte>, pos: nat): (r: Result<nat, Error>)
    ensures r.Ok? ==> pos < r.value <= |bytes|
    decreases |bytes| - pos
  {
    if pos + BLOCK > |bytes| then Err(TruncatedEntry)
    else
      var ext := bytes[pos..pos + BLOCK];
      if ext[X_GNU_SPARSE_ISEXTENDED] == 0 then Ok(pos + BLOCK)
      else if !SparseMapFull(ext, 0, GNU_SPARSE_EXTENSION_ENTRIES) then Err(BadSparseHeader)
      else SparseEnd(bytes, pos + BLOCK)
  }

  function SparseExtensions(bytes: seq<Byte>, pos: nat, block: seq<Byte>): (r: Result<nat, Error>)
    requires |block| == BLOCK
    ensures r.Ok? ==> pos < r.value <= |bytes|
  {
    if !HasGnuMagic(block) || !SparseMapFull(block, H_GNU_SPARSE_MAP, GNU_SPARSE_HEADER_ENTRIES) then Err(BadSparseHeader)
    else SparseEnd(bytes, pos)
  }

  /** `_skipGnuSparseExtensions` */
  method SkipGnuSparseExtensions(bytes: seq<Byte>, start: nat, block: seq<Byte>) returns (r: Result<nat, Error>)
    requires |block| == BLOCK
    ensures r == SparseExtensions(bytes, start, block)
  {
    if !HasGnuMagic(block) || !SparseMapFull(block, H_GNU_SPARSE_MAP, GNU_SPARSE_HEADER_ENTRIES) {
      return Err(BadSparseHeader);
    }
    var pos := start;
    while true
      invariant pos >= start
      invariant SparseEnd(bytes, start) == SparseEnd(bytes, pos)
      decreases |bytes| - pos
    {
      if pos + BLOCK > |bytes| { return Err(TruncatedEntry); }
      var ext := bytes[pos..pos + BLOCK];
      if ext[X_GNU_SPARSE_ISEXTENDED] == 0 { return Ok(pos + BLOCK); }
      if !SparseMapFull(ext, 0, GNU_SPARSE_EXTENSION_ENTRIES) { return Err(BadSparseHeader); }
      pos := pos + BLOCK;
    }
  }

  // ---------------------------------------------------------------- record keys

  predicate IsSparseKey(key: string) {
    "GNU.sparse." <= key || key == "SCHILY.realsize" || key == "SUN.holesdata"
  }

  predicate IsGlobalRefusedKey(key: string) {
    key == "path" || key == "linkpath" || key == "size" || IsSparseKey(key)
  }

  predicate HasKey(records: Records, p: string -> bool) {
    exists key :: key in records && p(key)
  }

  /** The records read since the previous entry. */
  datatype Pending = Pending(pax: Option<Records>, longName: Option<string>, longLink: Option<string>)

  const NOTHING := Pending(None, None, None)

  /** A non-empty record value; the source tests values for truth. */
  function PaxValue(pax: Option<Records>, key: string): Option<string> {
    if pax.Some? && key in pax.value && pax.value[key] != "" then Some(pax.value[key]) else None
  }

  /** `_paxEntryName` */
  function PaxEntryName(pax: Option<Records>): Option<string> {
    var sparse := PaxValue(pax, Pax.SPARSE_NAME);
    if sparse.Some? then sparse else PaxValue(pax, Pax.PATH)
  }

  /** `_gnuLongValue`: up to the first NUL, not empty, valid UTF-8. */
  function GnuLongValue(u: Pax.Utf8, body: seq<Byte>): Result<string, Error> {
    var nul := Pax.IndexOf(body, Pax.NUL, 0);
    var value := if nul == -1 then body else body[..nul];
    if value == [] then Err(BadLongRecord)
    else if !u.valid(value) then Err(NameNotUtf8)
    else Ok(u.decode(value))
  }

  // ---------------------------------------------------------------- one entry header

  /** Header size and pax size; the pax size replaces the header's. */
  function EntrySize(hdr: Header, pax: Option<Records>): Result<(nat, nat), Error> {
    if pax.Some? && "size" in pax.value then
      match Pax.PaxSize(pax.value["size"])
      case BadSize => Err(BadPaxSize)
      case Size(n) => Ok((n, n))
    else Ok((hdr.size, 0))
  }

  /** Name and link target, from all the sources that may supply them. */
  function EntryNames(hdr: Header, a: Pending): Result<(string, string), Error> {
    var paxName, paxLink := PaxEntryName(a.pax), PaxValue(a.pax, Pax.LINKPATH);
    if a.longName.Some? && paxName.Some? && paxName.value != a.longName.value then Err(LongNamePaxConflict)
    else if a.longLink.Some? && paxLink.Some? && paxLink.value != a.longLink.value then Err(LongNamePaxConflict)
    else if paxName.None? && a.longName.None? && !hdr.nameIsUtf8 then Err(NameNotUtf8)
    else if IsLink(hdr.typeflag) && a.longLink.None? && paxLink.None? && !hdr.linknameIsUtf8 then Err(NameNotUtf8)
    else Ok((
      if a.longName.Some? then a.longName.value else if paxName.Some? then paxName.value else hdr.name,
      if a.longLink.Some? then a.longLink.value else if paxLink.Some? then paxLink.value else hdr.linkname))
  }

  predicate IsLink(tf: Byte) {
    tf == TF_SYMLINK || tf == TF_HARDLINK
  }

  predicate WithoutBody(tf: Byte) {
    tf == TF_HARDLINK || tf == TF_SYMLINK || tf == TF_CHARDEV || tf == TF_BLOCKDEV || tf == TF_DIRECTORY || tf == TF_FIFO
  }

  predicate SlashDirectory(tf: Byte, name: string) {
    (tf == TF_REGULAR || tf == TF_REGULAR_LEGACY || tf == TF_CONTIGUOUS) && name != "" && name[|name| - 1] == '/'
  }

  /** Everything about an entry except where its body lies. */
  function ResolveEntry(env: Env, hdr: Header, block: seq<Byte>, a: Pending, headerAt: nat): Result<Entry, Error>
    requires |block| == BLOCK
  {
    var size :- EntrySize(hdr, a.pax);
    var names :- EntryNames(hdr, a);
    var paxLink := PaxValue(a.pax, Pax.LINKPATH);
    var time := if a.pax.Some? && "mtime" in a.pax.value then env.paxTime(a.pax.value["mtime"]) else None;
    var slash := SlashDirectory(hdr.typeflag, names.0);
    if (WithoutBody(hdr.typeflag) || slash) && (hdr.size != 0 || size.1 != 0) then Err(SizeOnNonFile)
    else if (a.longLink.Some? || paxLink.Some?) && !IsLink(hdr.typeflag) then Err(LinkTargetOnNonLink)
    else
      var sparse := (a.pax.Some? && HasKey(a.pax.value, IsSparseKey)) ||
                    (hdr.typeflag != TF_GNU_SPARSE && OldGnuSparseFieldsSet(block));
      Ok(Entry(hdr.(name := names.0, linkname := names.1, size := size.0, mtime := if time.Some? then time.value else hdr.mtime),
               sparse, slash, headerAt, headerAt, 0))
  }

  /** Size cap, sparse extension blocks and the body's range; pos is just after the header block. */
  function PlaceEntry(env: Env, bytes: seq<Byte>, pos: nat, block: seq<Byte>, e: Entry): (r: Result<Entry, Error>)
    requires |block| == BLOCK && pos <= |bytes|
    ensures r.Ok? ==> r.value == e.(bodyStart := r.value.bodyStart, paddedSize := Padded(e.hdr.size))
    ensures r.Ok? ==> pos <= r.value.bodyStart
    ensures r.Ok? ==> r.value.bodyStart + r.value.paddedSize <= |bytes|
  {
    if e.hdr.size > env.policy.maxEntryBytes then Err(EntryTooLarge)
    else
      var bodyStart :- if e.hdr.typeflag == TF_GNU_SPARSE && block[H_GNU_SPARSE_ISEXTENDED] != 0
                       then SparseExtensions(bytes, pos, block) else Ok(pos);
      if bodyStart + Padded(e.hdr.size) > |bytes| then Err(TruncatedEntry)
      else Ok(e.(bodyStart := bodyStart, paddedSize := Padded(e.hdr.size)))
  }

  /** The entry whose header block is at pos, given the records a that precede it; `room` says that
      the entry count is still below the cap. */
  function EntryAt(env: Env, bytes: seq<Byte>, pos: nat, hdr: Header, a: Pending, room: bool): (r: Result<Entry, Error>)
    requires pos + BLOCK <= |bytes|
    ensures r.Ok? ==> r.value.headerAt == pos && pos + BLOCK <= r.value.bodyStart
    ensures r.Ok? ==> r.value.paddedSize == Padded(r.value.hdr.size) && r.value.bodyStart + r.value.paddedSize <= |bytes|
  {
    var block := bytes[pos..pos + BLOCK];
    if (hdr.typeflag == TF_GNU_VOLHDR || hdr.typeflag == TF_SOLARIS_ACL) && a != NOTHING then Err(DanglingExtendedHeader)
    else
      var e :- ResolveEntry(env, hdr, block, a, pos);
      if !room then Err(TooManyEntries) else PlaceEntry(env, bytes, pos + BLOCK, block, e)
  }

  // ---------------------------------------------------------------- extension headers

  /** One extension header with its body, read on its own. */
  datatype Ext = Global(records: Records) | Local(records: Records) | LongName(value: string) | LongLink(value: string)

  predicate IsPaxHeader(tf: Byte) {
    tf == TF_PAX_EXTENDED || tf == TF_SOLARIS_EXTENDED || tf == TF_PAX_GLOBAL
  }

  predicate IsLongHeader(tf: Byte) {
    tf == TF_GNU_LONGNAME || tf == TF_GNU_LONGLINK
  }

  function LongCap(env: Env): nat {
    if env.policy.maxEntryBytes < GNU_LONG_RECORD_MAX then env.policy.maxEntryBytes else GNU_LONG_RECORD_MAX
  }

  /** The extension header at pos and the position after its body. */
  function ExtAt(env: Env, bytes: seq<Byte>, pos: nat, hdr: Header): (r: Result<(Ext, nat), Error>)
    requires pos + BLOCK <= |bytes|
    ensures r.Ok? ==> pos + BLOCK <= r.value.1 <= |bytes|
  {
    if IsPaxHeader(hdr.typeflag) then
      var read :- ReadExtensionBody(bytes, pos + BLOCK, hdr.size, env.policy.maxEntryBytes);
      match Pax.ParseFrom(env.utf8, read.0, map[])
      case Failed(p) => Err(BadPax(p))
      case Parsed(records) =>
        if hdr.typeflag != TF_PAX_GLOBAL then Ok((Local(records), read.1))
        else if HasKey(records, IsGlobalRefusedKey) then Err(GlobalEntryAttribute)
        else Ok((Global(records), read.1))
    else
      var read :- ReadExtensionBody(bytes, pos + BLOCK, hdr.size, LongCap(env));
      var value :- GnuLongValue(env.utf8, read.0);
      Ok((if hdr.typeflag == TF_GNU_LONGNAME then LongName(value) else LongLink(value), read.1))
  }

  // ---------------------------------------------------------------- the grammar

  /** The header block at a position, unless the archive ends there. */
  datatype Head = NoHead | BadHead(error: Error) | Head(hdr: Header)

  function HeadAt(env: Env, bytes: seq<Byte>, pos: nat): (h: Head)
    ensures h.Head? ==> pos + BLOCK <= |bytes|
  {
    if pos + BLOCK > |bytes| then NoHead
    else
      var block := bytes[pos..pos + BLOCK];
      if IsZeroBlock(block) then NoHead
      else
        match env.parseHeader(block)
        case Err(e) => BadHead(e)
        case Ok(hdr) => Head(hdr)
  }

  predicate IsExtension(tf: Byte) {
    IsPaxHeader(tf) || IsLongHeader(tf)
  }

  /** What stands at a block boundary. */
  datatype Token = End | Bad(error: Error) | Extension(ext: Ext, next: nat) | EntryHeader(hdr: Header)

  function TokenAt(env: Env, bytes: seq<Byte>, pos: nat): (t: Token)
    ensures t.Extension? ==> pos + BLOCK <= t.next <= |bytes|
    ensures t.EntryHeader? ==> pos + BLOCK <= |bytes|
  {
    match HeadAt(env, bytes, pos)
    case NoHead => End
    case BadHead(e) => Bad(e)
    case Head(hdr) =>
      if IsExtension(hdr.typeflag) then
        match ExtAt(env, bytes, pos, hdr)
        case Err(e) => Bad(e)
        case Ok((ext, next)) => Extension(ext, next)
      else EntryHeader(hdr)
  }

  /** An archive member: the extension headers read since the previous entry, then the entry. */
  datatype Member = Member(exts: seq<Ext>, entry: Entry)

  /** Position after the extension headers exts, when exactly those stand at pos. */
  ghost function SpanEnd(env: Env, bytes: seq<Byte>, pos: nat, exts: seq<Ext>): Option<nat>
    decreases |exts|
  {
    if exts == [] then Some(pos)
    else
      var t := TokenAt(env, bytes, pos);
      if t.Extension? && t.ext == exts[0] then SpanEnd(env, bytes, t.next, exts[1..]) else None
  }

  /** What some kind of extension header holds, for each header of that kind. */
  ghost function Pick<T>(exts: seq<Ext>, of: Ext -> Option<T>): seq<T> {
    if exts == [] then [] else (match of(exts[0]) case None => [] case Some(v) => [v]) + Pick(exts[1..], of)
  }

  function LocalOf(e: Ext): Option<Records> {
    if e.Local? then Some(e.records) else None
  }

  function NameOf(e: Ext): Option<string> {
    if e.LongName? then Some(e.value) else None
  }

  function LinkOf(e: Ext): Option<string> {
    if e.LongLink? then Some(e.value) else None
  }

  ghost function Locals(exts: seq<Ext>): seq<Records> {
    Pick(exts, LocalOf)
  }

  ghost function Names(exts: seq<Ext>): seq<string> {
    Pick(exts, NameOf)
  }

  ghost function Links(exts: seq<Ext>): seq<string> {
    Pick(exts, LinkOf)
  }

  /** At most one x or X header, one L record and one K record; any number of g headers. */
  ghost predicate AtMostOneEach(exts: seq<Ext>) {
    |Locals(exts)| <= 1 && |Names(exts)| <= 1 && |Links(exts)| <= 1
  }

  ghost function Only<T>(s: seq<T>): Option<T> {
    if s == [] then None else Some(s[0])
  }

  /** The records exts hold for the next entry. */
  ghost function Collected(exts: seq<Ext>): Pending {
    Pending(Only(Locals(exts)), Only(Names(exts)), Only(Links(exts)))
  }

  ghost predicate IsEntry(env: Env, bytes: seq<Byte>, pos: nat, exts: seq<Ext>, e: Entry) {
    var t := TokenAt(env, bytes, pos);
    && AtMostOneEach(exts)
    && t.EntryHeader?
    && EntryAt(env, bytes, pos, t.hdr, Collected(exts), true) == Ok(e)
  }

  /** The archive from pos on is the members ms and then only g headers up to its end. The headers
      `before` were read just before pos and belong to whatever comes first. */
  ghost predicate Derives(env: Env, bytes: seq<Byte>, pos: nat, before: seq<Ext>, ms: seq<Member>, trailing: seq<Ext>)
    decreases |ms|
  {
    if ms == [] then
      var end := SpanEnd(env, bytes, pos, trailing);
      end.Some? && TokenAt(env, bytes, end.value).End? && AtMostOneEach(before + trailing) && Collected(before + trailing) == NOTHING
    else
      var m := ms[0];
      && before <= m.exts
      && var at := SpanEnd(env, bytes, pos, m.exts[|before|..]);
      && at.Some?
      && IsEntry(env, bytes, at.value, m.exts, m.entry)
      && Derives(env, bytes, m.entry.bodyStart + m.entry.paddedSize, [], ms[1..], trailing)
  }

  function Entries(ms: seq<Member>): seq<Entry> {
    if ms == [] then [] else [ms[0].entry] + Entries(ms[1..])
  }

  // ---------------------------------------------------------------- the walk

  /** The pending records after one more extension header. */
  function Absorb(p: Pending, ext: Ext): Result<Pending, Error> {
    match ext
    case Global(_) => Ok(p)
    case Local(records) => if p.pax.Some? then Err(RedundantExtendedHeader) else Ok(p.(pax := Some(records)))
    case LongName(v) => if p.longName.Some? then Err(BadLongRecord) else Ok(p.(longName := Some(v)))
    case LongLink(v) => if p.longLink.Some? then Err(BadLongRecord) else Ok(p.(longLink := Some(v)))
  }

  /** A second L or K record before one entry; refused before its body is looked at. */
  predicate RepeatsLong(p: Pending, tf: Byte) {
    (tf == TF_GNU_LONGNAME && p.longName.Some?) || (tf == TF_GNU_LONGLINK && p.longLink.Some?)
  }

  /** The walk from pos on with pending records p after `count` entries. */
  function WalkFrom(env: Env, bytes: seq<Byte>, pos: nat, p: Pending, count: nat): Result<seq<Entry>, Error>
    decreases |bytes| - pos
  {
    match HeadAt(env, bytes, pos)
    case NoHead => if p == NOTHING then Ok([]) else Err(DanglingExtendedHeader)
    case BadHead(e) => Err(e)
    case Head(hdr) =>
      if RepeatsLong(p, hdr.typeflag) then Err(BadLongRecord)
      else if IsExtension(hdr.typeflag) then
        var read :- ExtAt(env, bytes, pos, hdr);
        var q :- Absorb(p, read.0);
        WalkFrom(env, bytes, read.1, q, count)
      else
        var e :- EntryAt(env, bytes, pos, hdr, p, count < env.policy.maxEntries);
        var rest :- WalkFrom(env, bytes, e.bodyStart + e.paddedSize, NOTHING, count + 1);
        Ok([e] + rest)
  }

  /** Prepends the entries already found. */
  function Prepend(es: seq<Entry>, r: Result<seq<Entry>, Error>): Result<seq<Entry>, Error> {
    match r
    case Ok(rest) => Ok(es + rest)
    case Err(e) => Err(e)
  }

  /** The bodies of extension headers, read as the loop of `_walk` reads them. */
  method ReadExtension(env: Env, bytes: seq<Byte>, pos: nat, hdr: Header) returns (r: Result<(Ext, nat), Error>)
    requires pos + BLOCK <= |bytes|
    ensures r == ExtAt(env, bytes, pos, hdr)
  {
    if IsPaxHeader(hdr.typeflag) {
      var paxRead := ReadExtensionBody(bytes, pos + BLOCK, hdr.size, env.policy.maxEntryBytes);
      if paxRead.Err? { return Err(paxRead.error); }
      var parsed := Pax.ParsePaxRecords(env.utf8, paxRead.value.0);
      if parsed.Failed? { return Err(BadPax(parsed.error)); }
      if hdr.typeflag != TF_PAX_GLOBAL { return Ok((Local(parsed.records), paxRead.value.1)); }
      if HasKey(parsed.records, IsGlobalRefusedKey) { return Err(GlobalEntryAttribute); }
      r := Ok((Global(parsed.records), paxRead.value.1));
    } else {
      var longRead := ReadExtensionBody(bytes, pos + BLOCK, hdr.size, LongCap(env));
      if longRead.Err? { return Err(longRead.error); }
      var longValue := GnuLongValue(env.utf8, longRead.value.0);
      if longValue.Err? { return Err(longValue.error); }
      r := Ok((if hdr.typeflag == TF_GNU_LONGNAME then LongName(longValue.value) else LongLink(longValue.value), longRead.value.1));
    }
  }

  /** `_walk` on the collected bytes. It ends on every byte string. */
  method Walk(env: Env, bytes: seq<Byte>) returns (r: Result<seq<Entry>, Error>)
    ensures r == WalkFrom(env, bytes, 0, NOTHING, 0)
  {
    hide ExtAt, EntryAt;
    var pos := 0;
    var entries: seq<Entry> := [];
    var pendingPax: Option<Records> := None;
    var pendingLongName: Option<string> := None;
    var pendingLongLink: Option<string> := None;
    PrependNothing(WalkFrom(env, bytes, 0, NOTHING, 0));
    while pos + BLOCK <= |bytes|
      invariant WalkFrom(env, bytes, 0, NOTHING, 0)
             == Prepend(entries, WalkFrom(env, bytes, pos, Pending(pendingPax, pendingLongName, pendingLongLink), |entries|))
      decreases |bytes| - pos
    {
      var a := Pending(pendingPax, pendingLongName, pendingLongLink);
      var block := bytes[pos..pos + BLOCK];
      if IsZeroBlock(block) { break; }
      var parsed := env.parseHeader(block);
      if parsed.Err? { return Err(parsed.error); }
      var hdr := parsed.value;
      if RepeatsLong(a, hdr.typeflag) { return Err(BadLongRecord); }
      if IsExtension(hdr.typeflag) {
        var read := ReadExtension(env, bytes, pos, hdr);
        if read.Err? { return Err(read.error); }
        match read.value.0 {
          case Global(_) =>
          case Local(records) =>
            if pendingPax.Some? { return Err(RedundantExtendedHeader); }
            pendingPax := Some(records);
          case LongName(v) =>
            if pendingLongName.Some? { return Err(BadLongRecord); }
            pendingLongName := Some(v);
          case LongLink(v) =>
            if pendingLongLink.Some? { return Err(BadLongRecord); }
            pendingLongLink := Some(v);
        }
        pos := read.value.1;
        continue;
      }
      var e := EntryAt(env, bytes, pos, hdr, a, |entries| < env.policy.maxEntries);
      if e.Err? { return Err(e.error); }
      PrependEntry(entries, e.value, WalkFrom(env, bytes, e.value.bodyStart + e.value.paddedSize, NOTHING, |entries| + 1));
      pendingPax, pendingLongName, pendingLongLink := None, None, None;
      entries := entries + [e.value];
      pos := e.value.bodyStart + e.value.paddedSize;
    }
    if pendingPax.Some? || pendingLongName.Some? || pendingLongLink.Some? { return Err(DanglingExtendedHeader); }
    assert entries + [] == entries;
    r := Ok(entries);
  }

  lemma PrependNothing(r: Result<seq<Entry>, Error>)
    ensures Prepend([], r) == r
  {
    if r.Ok? { assert [] + r.value == r.value; }
  }

  lemma PrependEntry(es: seq<Entry>, e: Entry, r: Result<seq<Entry>, Error>)
    ensures Prepend(es, Prepend([e], r)) == Prepend(es + [e], r)
  {
    if r.Ok? { assert es + ([e] + r.value) == es + [e] + r.value; }
  }

  // ---------------------------------------------------------------- walk = grammar

  lemma {:induction false} PickSplit<T>(a: seq<Ext>, b: seq<Ext>, of: Ext -> Option<T>)
    ensures Pick(a + b, of) == Pick(a, of) + Pick(b, of)
  {
    if a == [] {
      assert a + b == b;
    } else {
      assert (a + b)[0] == a[0] && (a + b)[1..] == a[1..] + b;
      PickSplit(a[1..], b, of);
    }
  }

  lemma PickOne<T>(ext: Ext, of: Ext -> Option<T>)
    ensures Pick([ext], of) == match of(ext) case None => [] case Some(v) => [v]
  {
    assert [ext][1..] == [];
  }

  lemma CollectSplit(a: seq<Ext>, b: seq<Ext>)
    ensures Locals(a + b) == Locals(a) + Locals(b)
    ensures Names(a + b) == Names(a) + Names(b)
    ensures Links(a + b) == Links(a) + Links(b)
  {
    PickSplit(a, b, LocalOf);
    PickSplit(a, b, NameOf);
    PickSplit(a, b, LinkOf);
  }

  lemma CollectNothing()
    ensures AtMostOneEach([]) && Collected([]) == NOTHING
  {
  }

  lemma NoRoom(env: Env, bytes: seq<Byte>, pos: nat, hdr: Header, a: Pending)
    requires pos + BLOCK <= |bytes|
    ensures EntryAt(env, bytes, pos, hdr, a, false).Err?
  {
    hide ResolveEntry, PlaceEntry;
  }

  /** Absorbing one more header succeeds exactly while at most one of each kind was read. */
  lemma AbsorbCollects(before: seq<Ext>, ext: Ext)
    requires AtMostOneEach(before)
    ensures Absorb(Collected(before), ext).Ok? <==> AtMostOneEach(before + [ext])
    ensures Absorb(Collected(before), ext).Ok? ==> Absorb(Collected(before), ext).value == Collected(before + [ext])
  {
    CollectSplit(before, [ext]);
    PickOne(ext, LocalOf);
    PickOne(ext, NameOf);
    PickOne(ext, LinkOf);
  }

  lemma AtMostOnePrefix(a: seq<Ext>, b: seq<Ext>)
    requires AtMostOneEach(a + b)
    ensures AtMostOneEach(a)
  {
    CollectSplit(a, b);
  }

  lemma ExtensionKind(env: Env, bytes: seq<Byte>, pos: nat, p: Pending)
    requires TokenAt(env, bytes, pos).Extension?
    ensures var hdr := HeadAt(env, bytes, pos).hdr;
            RepeatsLong(p, hdr.typeflag) ==> Absorb(p, TokenAt(env, bytes, pos).ext) == Err(BadLongRecord)
  {
  }

  /** One extension header of a derivation can be moved in front of it. */
  lemma DerivesStep(env: Env, bytes: seq<Byte>, pos: nat, before: seq<Ext>, ms: seq<Member>, trailing: seq<Ext>) returns (trailing': seq<Ext>)
    requires TokenAt(env, bytes, pos).Extension?
    requires var t := TokenAt(env, bytes, pos); Derives(env, bytes, t.next, before + [t.ext], ms, trailing)
    ensures Derives(env, bytes, pos, before, ms, trailing')
  {
    hide TokenAt, IsEntry, AtMostOneEach, Collected;
    var t := TokenAt(env, bytes, pos);
    if ms == [] {
      trailing' := [t.ext] + trailing;
      assert trailing'[1..] == trailing;
      assert before + trailing' == before + [t.ext] + trailing;
    } else {
      trailing' := trailing;
      var rest := ms[0].exts[|before|..];
      assert rest[0] == ms[0].exts[|before|] == (before + [t.ext])[|before|];
      assert rest[1..] == ms[0].exts[|before + [t.ext]|..];
    }
  }

  lemma {:induction false} WalkSound(env: Env, bytes: seq<Byte>, pos: nat, before: seq<Ext>, count: nat)
    returns (ms: seq<Member>, trailing: seq<Ext>)
    requires AtMostOneEach(before) && count <= env.policy.maxEntries
    requires WalkFrom(env, bytes, pos, Collected(before), count).Ok?
    ensures Derives(env, bytes, pos, before, ms, trailing)
    ensures WalkFrom(env, bytes, pos, Collected(before), count) == Ok(Entries(ms))
    ensures count + |ms| <= env.policy.maxEntries
    decreases |bytes| - pos
  {
    hide ExtAt, EntryAt, HeadAt, Locals, Names, Links;
    match TokenAt(env, bytes, pos)
    case End =>
      ms, trailing := [], [];
      assert before + [] == before;
    case Bad(_) =>
      assert false;
    case Extension(ext, next) =>
      AbsorbCollects(before, ext);
      var tail;
      ms, tail := WalkSound(env, bytes, next, before + [ext], count);
      trailing := DerivesStep(env, bytes, pos, before, ms, tail);
    case EntryHeader(hdr) =>
      CollectNothing();
      NoRoom(env, bytes, pos, hdr, Collected(before));
      var e := EntryAt(env, bytes, pos, hdr, Collected(before), true).value;
      var rest;
      rest, trailing := WalkSound(env, bytes, e.bodyStart + e.paddedSize, [], count + 1);
      ms := [Member(before, e)] + rest;
      assert ms[0].exts[|before|..] == [] && ms[1..] == rest;
  }

  /** Extension headers of a derivation that still lie ahead of its first entry. */
  ghost function Ahead(before: seq<Ext>, ms: seq<Member>, trailing: seq<Ext>): seq<Ext> {
    if ms == [] then trailing else if |before| <= |ms[0].exts| then ms[0].exts[|before|..] else []
  }

  /** Converse of `DerivesStep`: the first header ahead can be moved behind the position. */
  lemma DerivesAdvance(env: Env, bytes: seq<Byte>, pos: nat, before: seq<Ext>, ms: seq<Member>, trailing: seq<Ext>) returns (trailing': seq<Ext>)
    requires Derives(env, bytes, pos, before, ms, trailing) && Ahead(before, ms, trailing) != []
    ensures var t := TokenAt(env, bytes, pos);
            && t.Extension?
            && Derives(env, bytes, t.next, before + [t.ext], ms, trailing')
            && AtMostOneEach(before + [t.ext])
  {
    hide TokenAt, Collected;
    var t := TokenAt(env, bytes, pos);
    var rest := Ahead(before, ms, trailing);
    assert t.Extension? && t.ext == rest[0];
    var all := before + rest;
    assert all == before + [t.ext] + rest[1..];
    AtMostOnePrefix(before + [t.ext], rest[1..]) by { if ms != [] { assert all == ms[0].exts; } }
    if ms == [] {
      trailing' := trailing[1..];
    } else {
      trailing' := trailing;
      assert ms[0].exts[|before + [t.ext]|..] == rest[1..];
    }
  }

  /** The walk over one extension header that may be absorbed. */
  lemma WalkOverExtension(env: Env, bytes: seq<Byte>, pos: nat, before: seq<Ext>, count: nat)
    requires TokenAt(env, bytes, pos).Extension? && AtMostOneEach(before)
    requires AtMostOneEach(before + [TokenAt(env, bytes, pos).ext])
    ensures var t := TokenAt(env, bytes, pos);
            WalkFrom(env, bytes, pos, Collected(before), count) == WalkFrom(env, bytes, t.next, Collected(before + [t.ext]), count)
  {
    hide ExtAt, EntryAt, AtMostOneEach, Collected;
    AbsorbCollects(before, TokenAt(env, bytes, pos).ext);
    ExtensionKind(env, bytes, pos, Collected(before));
  }

  lemma {:induction false} WalkComplete(env: Env, bytes: seq<Byte>, pos: nat, before: seq<Ext>, ms: seq<Member>, trailing: seq<Ext>, count: nat)
    requires AtMostOneEach(before) && Derives(env, bytes, pos, before, ms, trailing)
    requires count + |ms| <= env.policy.maxEntries
    ensures WalkFrom(env, bytes, pos, Collected(before), count) == Ok(Entries(ms))
    decreases |bytes| - pos
  {
    hide ExtAt, EntryAt, HeadAt, AtMostOneEach, Collected;
    if Ahead(before, ms, trailing) != [] {
      var trailing' := DerivesAdvance(env, bytes, pos, before, ms, trailing);
      var t := TokenAt(env, bytes, pos);
      WalkOverExtension(env, bytes, pos, before, count);
      WalkComplete(env, bytes, t.next, before + [t.ext], ms, trailing', count);
    } else if ms == [] {
      assert before + trailing == before;
    } else {
      assert ms[0].exts == before;
      var e := ms[0].entry;
      CollectNothing();
      WalkComplete(env, bytes, e.bodyStart + e.paddedSize, [], ms[1..], trailing, count + 1);
    }
  }

  /** The walk succeeds exactly on the archives the grammar derives, with the derivation's entries:
      every x, X, L and K header is used by the entry that follows it, at most one of each kind
      precedes an entry, none reaches a later entry and none is left at the end. */
  lemma WalkExactly(env: Env, bytes: seq<Byte>, es: seq<Entry>)
    ensures WalkFrom(env, bytes, 0, NOTHING, 0) == Ok(es)
       <==> exists ms: seq<Member>, trailing: seq<Ext> ::
              Derives(env, bytes, 0, [], ms, trailing) && Entries(ms) == es && |ms| <= env.policy.maxEntries
  {
    hide WalkFrom, Derives;
    CollectNothing();
    if WalkFrom(env, bytes, 0, NOTHING, 0) == Ok(es) {
      var ms, trailing := WalkSound(env, bytes, 0, [], 0);
    }
    if ms: seq<Member>, trailing: seq<Ext> :|
         Derives(env, bytes, 0, [], ms, trailing) && Entries(ms) == es && |ms| <= env.policy.maxEntries
    {
      WalkComplete(env, bytes, 0, [], ms, trailing, 0);
    }
  }
}
