/**
 Archives written the way lib/archive-tar.js writes them, header block, body and zeros up to the next
 block for every header, then an end, read back by lib/archive-tar-read.js with the written bodies.
 */
module TarRoundTrip {
  import opened Bytes
  import opened Results
  import opened TarWalk
  import opened TarLayout
  import opened TarExtract
  import Pax = TarPax

  /** A header block and the body it announces. */
  datatype Piece = Piece(block: seq<Byte>, body: seq<Byte>)

  /** One file or directory: its extension headers, what each of them is, its own header and body; the
      records these hold for it, and the name it gets. */
  datatype Part = Part(headers: seq<Piece>, exts: seq<Ext>, file: Piece, records: Pending, name: string, directory: bool)

  ghost function Zeros(n: nat): seq<Byte> {
    seq(n, _ => 0)
  }

  ghost function PieceText(p: Piece): seq<Byte> {
    p.block + (p.body + Zeros(Filled(|p.body|) - |p.body|))
  }

  ghost function PiecesText(ps: seq<Piece>): seq<Byte> {
    if ps == [] then [] else PieceText(ps[0]) + PiecesText(ps[1..])
  }

  ghost function ArchiveText(parts: seq<Part>): seq<Byte> {
    if parts == [] then [] else PiecesText(parts[0].headers) + (PieceText(parts[0].file) + ArchiveText(parts[1..]))
  }

  /** The block is a header block. */
  ghost predicate Sound(env: Env, p: Piece) {
    && |p.block| == 512 && (exists i :: 0 <= i < 512 && p.block[i] != 0) && env.parseHeader(p.block).Ok?
    && |p.body| <= env.policy.maxEntryBytes
  }

  ghost function HeaderOf(env: Env, p: Piece): Header
    requires Sound(env, p)
  {
    env.parseHeader(p.block).value
  }

  ghost predicate IsExt(env: Env, p: Piece, ext: Ext) {
    && Sound(env, p) && HeaderOf(env, p).size == |p.body|
    && ExtHolds(env.utf8, HeaderOf(env, p).typeflag, p.body, ext)
  }

  ghost predicate SparseKey(key: string) {
    "GNU.sparse." <= key || key == "SCHILY.realsize" || key == "SUN.holesdata"
  }

  ghost predicate NoSparseFields(block: seq<Byte>)
    requires |block| == 512
  {
    block[257..265] == [0x75, 0x73, 0x74, 0x61, 0x72, 0x20, 0x20, 0x00] ==> forall i :: 386 <= i < 495 ==> block[i] == 0
  }

  /** The part is a regular file or a directory with its extension headers. */
  ghost predicate IsFile(env: Env, part: Part) {
    && |part.headers| == |part.exts| && NoRepeats(part.exts) && Holds(part.exts, part.records)
    && (forall i :: 0 <= i < |part.headers| ==> IsExt(env, part.headers[i], part.exts[i]))
    && Sound(env, part.file) && NoSparseFields(part.file.block)
    && (part.records.pax.Some? ==> forall key :: key in part.records.pax.value ==> !SparseKey(key))
    && var hdr := HeaderOf(env, part.file);
    && (if part.directory then hdr.typeflag == 0x35 && hdr.size == 0 && part.file.body == []
        else (hdr.typeflag == 0x30 || hdr.typeflag == 0 || hdr.typeflag == 0x37)
             && (part.name != "" ==> part.name[|part.name| - 1] != '/'))
    && NameTaken(hdr, part.records, part.name) && LinkTaken(hdr, part.records, hdr.linkname)
    && SizeTaken(hdr, part.records, |part.file.body|)
  }

  ghost predicate AllFiles(env: Env, parts: seq<Part>) {
    forall i :: 0 <= i < |parts| ==> IsFile(env, parts[i])
  }

  lemma FirstFile(env: Env, parts: seq<Part>)
    requires AllFiles(env, parts) && parts != []
    ensures IsFile(env, parts[0]) && Sound(env, parts[0].file) && AllFiles(env, parts[1..])
  {
    FileSound(env, parts[0]);
    hide IsFile;
    assert forall i :: 0 <= i < |parts[1..]| ==> parts[1..][i] == parts[i + 1];
  }

  lemma FileSound(env: Env, part: Part)
    requires IsFile(env, part)
    ensures Sound(env, part.file)
  {
  }

  // ---------------------------------------------------------------- where the pieces lie

  /** s stands at pos. */
  ghost predicate Sub(all: seq<Byte>, pos: nat, s: seq<Byte>) {
    pos + |s| <= |all| && all[pos..pos + |s|] == s
  }

  lemma SubSplit(all: seq<Byte>, pos: nat, a: seq<Byte>, b: seq<Byte>)
    requires Sub(all, pos, a + b)
    ensures Sub(all, pos, a) && Sub(all, pos + |a|, b)
  {
    var s := all[pos..pos + |a + b|];
    assert s == a + b;
    assert all[pos..pos + |a|] == s[..|a|] == a;
    assert all[pos + |a|..pos + |a| + |b|] == s[|a|..] == b;
  }

  lemma PieceStands(env: Env, all: seq<Byte>, pos: nat, p: Piece)
    requires Sound(env, p) && Sub(all, pos, PieceText(p))
    ensures HeaderAt(env, all, pos, HeaderOf(env, p)) && Sub(all, pos, p.block) && Sub(all, pos + 512, p.body)
    ensures |PieceText(p)| == 512 + Filled(|p.body|) && pos + 512 + Filled(|p.body|) <= |all|
  {
    hide Filled;
    var zeros := Zeros(Filled(|p.body|) - |p.body|);
    SubSplit(all, pos, p.block, p.body + zeros);
    SubSplit(all, pos + 512, p.body, zeros);
    var i :| 0 <= i < 512 && p.block[i] != 0;
    assert all[pos + i] == all[pos..pos + 512][i];
  }

  lemma ExtPieceStands(env: Env, all: seq<Byte>, pos: nat, p: Piece, ext: Ext)
    requires IsExt(env, p, ext) && Sub(all, pos, PieceText(p))
    ensures ExtStands(env, all, pos, HeaderOf(env, p), ext, pos + |PieceText(p)|)
  {
    hide ExtHolds, Filled, HeaderAt, PieceText;
    PieceStands(env, all, pos, p);
  }

  lemma {:induction false} HeadersStand(env: Env, all: seq<Byte>, pos: nat, headers: seq<Piece>, exts: seq<Ext>)
    requires |headers| == |exts| && (forall i :: 0 <= i < |headers| ==> IsExt(env, headers[i], exts[i]))
    requires Sub(all, pos, PiecesText(headers))
    ensures SpanStands(env, all, pos, exts, pos + |PiecesText(headers)|)
    decreases |headers|
  {
    hide IsExt, PieceText, Sub, ExtStands;
    if headers != [] {
      var p := headers[0];
      SubSplit(all, pos, PieceText(p), PiecesText(headers[1..]));
      ExtPieceStands(env, all, pos, p, exts[0]);
      HeadersStand(env, all, pos + |PieceText(p)|, headers[1..], exts[1..]);
    }
  }

  /** The entry the walk gives for a file whose header block is at `at`. */
  ghost function EntryOf(env: Env, part: Part, at: nat): Entry
    requires Sound(env, part.file)
  {
    var hdr, a := HeaderOf(env, part.file), part.records;
    var mtime := if Absent(a, "mtime") then hdr.mtime else match env.paxTime(a.pax.value["mtime"]) case None => hdr.mtime case Some(t) => t;
    Entry(hdr.(name := part.name, size := |part.file.body|, mtime := mtime), false, false, at, at + 512, Filled(|part.file.body|))
  }

  lemma NotSparse(all: seq<Byte>, pos: nat, block: seq<Byte>)
    requires |block| == 512 && Sub(all, pos, block) && NoSparseFields(block)
    ensures !(GnuFormat(all, pos) && exists i :: pos + 386 <= i < pos + 495 && all[i] != 0)
  {
    assert all[pos..pos + 512] == block;
    assert forall i :: pos <= i < pos + 512 ==> all[i] == all[pos..pos + 512][i - pos];
    if GnuFormat(all, pos) {
      assert block[257..265] == all[pos + 257..pos + 265];
      forall i | pos + 386 <= i < pos + 495 ensures all[i] == 0 {
        var d := i - pos;
        assert block[d] == 0;
      }
    }
  }

  lemma FileDescribed(env: Env, all: seq<Byte>, at: nat, part: Part)
    requires IsFile(env, part) && Sub(all, at, PieceText(part.file))
    ensures at + 512 <= |all| && Described(env, all, at, HeaderOf(env, part.file), part.records, EntryOf(env, part, at))
    ensures HeaderAt(env, all, at, HeaderOf(env, part.file))
  {
    hide Filled, PieceText, NameTaken, LinkTaken, HeaderAt, GnuFormat, NoSparseFields, Holds, NoRepeats, Sub;
    PieceStands(env, all, at, part.file);
    NotSparse(all, at, part.file.block);
    assert at + 512 + Filled(|part.file.body|) <= |all|;
  }

  lemma PartStands(env: Env, all: seq<Byte>, pos: nat, part: Part)
    requires IsFile(env, part)
    requires Sub(all, pos, PiecesText(part.headers)) && Sub(all, pos + |PiecesText(part.headers)|, PieceText(part.file))
    ensures MemberStands(env, all, pos, Member(part.exts, EntryOf(env, part, pos + |PiecesText(part.headers)|)))
  {
    hide Described, HeaderAt, NameTaken, LinkTaken, SizeTaken, NoSparseFields, Holds, NoRepeats, Sub, PieceText, PiecesText, IsExt;
    var at := pos + |PiecesText(part.headers)|;
    HeadersStand(env, all, pos, part.headers, part.exts);
    FileDescribed(env, all, at, part);
  }

  /** The members of the archive of these parts, from pos on. */
  ghost function MembersOf(env: Env, parts: seq<Part>, pos: nat): seq<Member>
    requires AllFiles(env, parts)
  {
    if parts == [] then []
    else
      FirstFile(env, parts);
      var at := pos + |PiecesText(parts[0].headers)|;
      [Member(parts[0].exts, EntryOf(env, parts[0], at))] + MembersOf(env, parts[1..], at + |PieceText(parts[0].file)|)
  }

  /** Nothing, or an end, follows. */
  ghost predicate IsTail(tail: seq<Byte>) {
    |tail| < 512 || forall i :: 0 <= i < 512 ==> tail[i] == 0
  }

  lemma {:induction false} PartsWritten(env: Env, all: seq<Byte>, pos: nat, parts: seq<Part>, tail: seq<Byte>)
    requires AllFiles(env, parts) && IsTail(tail)
    requires Sub(all, pos, ArchiveText(parts)) && Sub(all, pos + |ArchiveText(parts)|, tail) && |all| == pos + |ArchiveText(parts)| + |tail|
    ensures Written(env, all, pos, MembersOf(env, parts, pos), [])
    decreases |parts|
  {
    hide IsFile, AllFiles, MemberStands, PieceText, PiecesText, EntryOf, Described, EndsAt, SpanStands;
    if parts == [] {
      EndStands(all, pos, tail);
      NoSpan(env, all, pos);
    } else {
      hide Sub;
      FirstFile(env, parts);
      var part, rest := parts[0], parts[1..];
      var at := pos + |PiecesText(part.headers)|;
      SubSplit(all, pos, PiecesText(part.headers), PieceText(part.file) + ArchiveText(rest));
      SubSplit(all, at, PieceText(part.file), ArchiveText(rest));
      PartStands(env, all, pos, part);
      EntryEnds(env, part, at);
      PartsWritten(env, all, at + |PieceText(part.file)|, rest, tail);
      assert MembersOf(env, parts, pos)[1..] == MembersOf(env, rest, at + |PieceText(part.file)|);
    }
  }

  lemma EntryEnds(env: Env, part: Part, at: nat)
    requires IsFile(env, part)
    ensures EntryOf(env, part, at).bodyStart + EntryOf(env, part, at).paddedSize == at + |PieceText(part.file)|
  {
  }

  lemma NoSpan(env: Env, all: seq<Byte>, pos: nat)
    ensures SpanStands(env, all, pos, [], pos)
  {
  }

  lemma EndStands(all: seq<Byte>, pos: nat, tail: seq<Byte>)
    requires IsTail(tail) && Sub(all, pos, tail) && |all| == pos + |tail|
    ensures EndsAt(all, pos)
  {
    if |tail| >= 512 {
      forall i | pos <= i < pos + 512 ensures all[i] == 0 {
        var d := i - pos;
        assert all[pos..pos + |tail|][d] == tail[d];
      }
    }
  }

  // ---------------------------------------------------------------- reading it back

  /** The entry is the part's file or directory: its name, and its body in the archive. */
  ghost predicate ReadsAs(env: Env, all: seq<Byte>, part: Part, e: Entry)
    requires Sound(env, part.file)
  {
    && e.hdr.name == part.name && e.hdr.typeflag == HeaderOf(env, part.file).typeflag
    && e.hdr.size == |part.file.body| && !e.gnuSparse && !e.slashDirectory
    && e.bodyStart == e.headerAt + 512 && Sub(all, e.bodyStart, part.file.body)
  }

  /** Each entry reads as its part. */
  ghost predicate AllRead(env: Env, all: seq<Byte>, parts: seq<Part>, es: seq<Entry>) {
    |es| == |parts| && forall i :: 0 <= i < |parts| ==> Sound(env, parts[i].file) && ReadsAs(env, all, parts[i], es[i])
  }

  lemma {:induction false} MembersRead(env: Env, all: seq<Byte>, pos: nat, parts: seq<Part>, i: nat)
    requires AllFiles(env, parts)
    requires Sub(all, pos, ArchiveText(parts)) && i < |parts|
    ensures |MembersOf(env, parts, pos)| == |parts| && Sound(env, parts[i].file) && ReadsAs(env, all, parts[i], MembersOf(env, parts, pos)[i].entry)
    decreases i
  {
    hide IsFile, AllFiles, PieceText, PiecesText, Sub;
    FirstFile(env, parts);
    var part, rest := parts[0], parts[1..];
    var at := pos + |PiecesText(part.headers)|;
    MembersCount(env, parts, pos);
    SubSplit(all, pos, PiecesText(part.headers), PieceText(part.file) + ArchiveText(rest));
    SubSplit(all, at, PieceText(part.file), ArchiveText(rest));
    if i == 0 {
      PieceStands(env, all, at, part.file);
    } else {
      MembersRead(env, all, at + |PieceText(part.file)|, rest, i - 1);
    }
  }

  lemma {:induction false} MembersCount(env: Env, parts: seq<Part>, pos: nat)
    requires AllFiles(env, parts)
    ensures |MembersOf(env, parts, pos)| == |parts|
    decreases |parts|
  {
    hide IsFile, AllFiles, EntryOf;
    if parts != [] {
      FirstFile(env, parts);
      MembersCount(env, parts[1..], pos + |PiecesText(parts[0].headers)| + |PieceText(parts[0].file)|);
    }
  }

  /** An archive of regular files and directories, each header followed by its body and zeros up to the next block, and
      then an end, is read with one entry each, in order, each with the written name and the written
      body right behind its header block. */
  lemma ArchiveReadsBack(env: Env, parts: seq<Part>, tail: seq<Byte>)
    requires AllFiles(env, parts) && IsTail(tail) && |parts| <= env.policy.maxEntries
    ensures var all := ArchiveText(parts) + tail;
            var r := WalkFrom(env, all, 0, NOTHING, 0);
            r.Ok? && AllRead(env, all, parts, r.value)
  {
    hide IsFile, AllFiles, Written, ArchiveText, WalkFrom, ReadsAs, Sound, MembersOf;
    var all := ArchiveText(parts) + tail;
    assert all[..|ArchiveText(parts)|] == ArchiveText(parts) && all[|ArchiveText(parts)|..] == tail;
    PartsWritten(env, all, 0, parts, tail);
    MembersCount(env, parts, 0);
    var ms := MembersOf(env, parts, 0);
    var es := seq(|ms|, i requires 0 <= i < |ms| => ms[i].entry);
    WalkReadsExactly(env, all, es);
    forall i | 0 <= i < |parts|
      ensures Sound(env, parts[i].file) && ReadsAs(env, all, parts[i], es[i])
    {
      MembersRead(env, all, 0, parts, i);
    }
  }

  /** The smallest case: one header block of a regular file, its body filled up to the next block, and two
      zero blocks are read as one entry whose body starts at byte 512. */
  lemma OneFile(env: Env, block: seq<Byte>, hdr: Header, body: seq<Byte>)
    requires |block| == 512 && block[0] != 0 && env.parseHeader(block) == Ok(hdr) && NoSparseFields(block)
    requires hdr.typeflag == 0x30 && hdr.size == |body| <= env.policy.maxEntryBytes && env.policy.maxEntries >= 1
    requires hdr.nameIsUtf8 && hdr.name != "" && hdr.name[|hdr.name| - 1] != '/'
    ensures var all := block + body + Zeros(Filled(|body|) - |body|) + Zeros(1024);
            var r := WalkFrom(env, all, 0, NOTHING, 0);
            && r.Ok? && |r.value| == 1 && r.value[0].bodyStart == 512
            && r.value[0].hdr.name == hdr.name && r.value[0].hdr.size == |body|
            && |all| >= 512 + |body| && all[512..512 + |body|] == body
  {
    hide WalkFrom;
    var part := Part([], [], Piece(block, body), NOTHING, hdr.name, false);
    OneFileIsFile(env, part, hdr);
    var all := block + body + Zeros(Filled(|body|) - |body|) + Zeros(1024);
    assert ArchiveText([part]) + Zeros(1024) == all by { OneFileText(part); }
    ArchiveReadsBack(env, [part], Zeros(1024));
    var es := WalkFrom(env, all, 0, NOTHING, 0).value;
    assert ReadsAs(env, all, part, es[0]);
    assert all[0..512] == block && all[0] == block[0];
    HeadExactly(env, all, 0, hdr);
    FirstAtZero(env, all, es);
  }

  lemma OneFileIsFile(env: Env, part: Part, hdr: Header)
    requires part == Part([], [], Piece(part.file.block, part.file.body), NOTHING, hdr.name, false)
    requires |part.file.block| == 512 && part.file.block[0] != 0 && env.parseHeader(part.file.block) == Ok(hdr) && NoSparseFields(part.file.block)
    requires hdr.typeflag == 0x30 && hdr.size == |part.file.body| <= env.policy.maxEntryBytes
    requires hdr.nameIsUtf8 && hdr.name != "" && hdr.name[|hdr.name| - 1] != '/'
    ensures AllFiles(env, [part])
  {
    hide NoSparseFields;
  }

  lemma OneFileText(part: Part)
    requires part.headers == []
    ensures ArchiveText([part]) == part.file.block + part.file.body + Zeros(Filled(|part.file.body|) - |part.file.body|)
  {
    assert [part][1..] == [];
  }

  /** An archive that begins with an entry header has its first entry there. */
  lemma FirstAtZero(env: Env, all: seq<Byte>, es: seq<Entry>)
    requires WalkFrom(env, all, 0, NOTHING, 0) == Ok(es) && es != []
    requires HeadAt(env, all, 0).Head? && !IsExtension(HeadAt(env, all, 0).hdr.typeflag)
    ensures es[0].headerAt == 0
  {
    hide EntryAt;
  }

  /** The names and bodies of the files as they were written. */
  ghost function WrittenFiles(parts: seq<Part>): seq<Item> {
    if parts == [] then []
    else
      var last := parts[|parts| - 1];
      WrittenFiles(parts[..|parts| - 1]) + (if last.directory then [] else [Item(last.name, last.file.body)])
  }

  lemma {:induction false} FilesRead(env: Env, all: seq<Byte>, parts: seq<Part>, es: seq<Entry>)
    requires AllFiles(env, parts) && AllRead(env, all, parts, es)
    ensures InBounds(all, es) && Files(all, es) == WrittenFiles(parts)
    ensures forall i :: 0 <= i < |es| ==> ClassifyEntry(es[i]) == (if parts[i].directory then Directory else File)
    decreases |parts|
  {
    hide IsFile, ClassifyEntry, Sub, Sound;
    if parts != [] {
      var n := |parts| - 1;
      assert AllFiles(env, parts[..n]) && AllRead(env, all, parts[..n], es[..n]);
      FilesRead(env, all, parts[..n], es[..n]);
      FlagRead(env, all, parts[n], es[n]);
      assert forall i :: 0 <= i < n ==> es[..n][i] == es[i];
      var e := es[n];
      assert all[e.bodyStart..e.bodyStart + e.hdr.size] == parts[n].file.body;
    }
  }

  lemma FlagRead(env: Env, all: seq<Byte>, part: Part, e: Entry)
    requires IsFile(env, part) && Sound(env, part.file) && ReadsAs(env, all, part, e)
    ensures e.bodyStart + e.hdr.size <= |all| && ClassifyEntry(e) == (if part.directory then Directory else File)
    ensures all[e.bodyStart..e.bodyStart + e.hdr.size] == part.file.body
  {
    hide NameTaken, LinkTaken, SizeTaken, NoSparseFields, Holds, NoRepeats;
  }

  /** Writing, then reading the whole archive within the caps: exactly the written names and bodies come
      back, and nothing stops the reading. */
  method WriteThenRead(env: Env, ghost parts: seq<Part>, ghost tail: seq<Byte>, bytes: seq<Byte>, allow: Allow) returns (r: Reading)
    requires AllFiles(env, parts) && IsTail(tail) && |parts| <= env.policy.maxEntries
    requires bytes == ArchiveText(parts) + tail && |bytes| <= env.policy.maxTotalBytes
    ensures r == Read(WrittenFiles(parts), None)
  {
    hide IsFile, AllFiles, AllRead, ArchiveText, WalkFrom, Files, ReadsAs, ClassifyEntry;
    ArchiveReadsBack(env, parts, tail);
    ghost var es := WalkFrom(env, bytes, 0, NOTHING, 0).value;
    FilesRead(env, bytes, parts, es);
    assert forall i :: 0 <= i < |es| ==> Allowed(es[i], allow);
    r := ReadArchive(env, bytes, allow);
  }
}
