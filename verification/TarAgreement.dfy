/**
 How the walk's entries (lib/archive-tar-read.js) relate to the records that supply their names, link
 targets and sizes, record by record.
 */
module TarAgreement {
  import opened Bytes
  import opened Results
  import opened TarWalk
  import Pax = TarPax

  // ---------------------------------------------------------------- the records before an entry

  /** The records of the pax header before an entry, if there is one, and its L and K values. */
  datatype Sources = Sources(pax: Option<seq<Pax.Record>>, longName: Option<string>, longLink: Option<string>)

  /** The same as the walk holds it: of the records of one key only the last is left. */
  function PendingOf(u: Pax.Utf8, s: Sources): Pending {
    Pending(if s.pax.Some? then Some(Pax.LastWins(u, s.pax.value, map[])) else None, s.longName, s.longLink)
  }

  /** The values that the records of one key supply. */
  ghost function ValuesOf(u: Pax.Utf8, rs: seq<Pax.Record>, key: string): set<string> {
    set i | 0 <= i < |rs| && u.decode(rs[i].key) == key :: u.decode(rs[i].value)
  }

  ghost function PaxValues(u: Pax.Utf8, s: Sources, key: string): set<string> {
    if s.pax.Some? then ValuesOf(u, s.pax.value, key) else {}
  }

  ghost function Elements(o: Option<string>): set<string> {
    if o.Some? then {o.value} else {}
  }

  /** Every name that some record supplies; an empty value supplies none. */
  ghost function NamesSupplied(u: Pax.Utf8, s: Sources): set<string> {
    PaxValues(u, s, Pax.SPARSE_NAME) + PaxValues(u, s, Pax.PATH) - {""} + Elements(s.longName)
  }

  ghost function LinksSupplied(u: Pax.Utf8, s: Sources): set<string> {
    PaxValues(u, s, Pax.LINKPATH) - {""} + Elements(s.longLink)
  }

  ghost function SizesSupplied(u: Pax.Utf8, s: Sources): set<string> {
    PaxValues(u, s, "size")
  }

  ghost predicate AllEqual(values: set<string>) {
    forall a, b :: a in values && b in values ==> a == b
  }

  /** Some record supplies a value that is not taken back by a later empty record of its key. */
  predicate NameInForce(a: Pending) {
    a.longName.Some? || PaxEntryName(a.pax).Some?
  }

  predicate LinkInForce(a: Pending) {
    a.longLink.Some? || PaxValue(a.pax, Pax.LINKPATH).Some?
  }

  lemma {:induction false} LastWinsFrom(u: Pax.Utf8, rs: seq<Pax.Record>, start: Records, key: string)
    ensures var m := Pax.LastWins(u, rs, start);
            if ValuesOf(u, rs, key) == {} then (key in m <==> key in start) && (key in m ==> m[key] == start[key])
            else key in m && m[key] in ValuesOf(u, rs, key)
    decreases |rs|
  {
    if rs != [] {
      var k := u.decode(rs[0].key);
      var next := start[k := u.decode(rs[0].value)];
      LastWinsFrom(u, rs[1..], next, key);
      FirstValue(u, rs, key);
    }
  }

  lemma FirstValue(u: Pax.Utf8, rs: seq<Pax.Record>, key: string)
    requires rs != []
    ensures ValuesOf(u, rs, key) == ValuesOf(u, rs[1..], key) + (if u.decode(rs[0].key) == key then {u.decode(rs[0].value)} else {})
  {
    forall v | v in ValuesOf(u, rs, key)
      ensures v in ValuesOf(u, rs[1..], key) || (u.decode(rs[0].key) == key && v == u.decode(rs[0].value))
    {
      var i :| 0 <= i < |rs| && u.decode(rs[i].key) == key && u.decode(rs[i].value) == v;
      if i > 0 { assert rs[1..][i - 1] == rs[i]; }
    }
    forall v | v in ValuesOf(u, rs[1..], key) ensures v in ValuesOf(u, rs, key) {
      var i :| 0 <= i < |rs[1..]| && u.decode(rs[1..][i].key) == key && u.decode(rs[1..][i].value) == v;
      assert rs[i + 1] == rs[1..][i];
    }
  }

  /** What the walk holds for a key is one of the values supplied for it. */
  lemma HeldIsSupplied(u: Pax.Utf8, s: Sources, key: string)
    ensures var a := PendingOf(u, s);
            && (PaxValue(a.pax, key).Some? ==> PaxValue(a.pax, key).value in PaxValues(u, s, key) - {""})
            && (a.pax.Some? && key in a.pax.value <==> PaxValues(u, s, key) != {})
            && (a.pax.Some? && key in a.pax.value ==> a.pax.value[key] in PaxValues(u, s, key))
  {
    hide Pax.LastWins, ValuesOf;
    if s.pax.Some? { LastWinsFrom(u, s.pax.value, map[], key); }
  }

  // ---------------------------------------------------------------- agreement with every record

  /** How an entry relates to every record before it. Its name agrees with every record that supplies
      one exactly when these records agree among themselves, and one is in force or the header's own
      name is the same; so does its link target. Its size agrees with every size record exactly when
      these agree among themselves. With no record the header's own values are taken. */
  ghost predicate AgreesEach(u: Pax.Utf8, hdr: Header, s: Sources, e: Entry) {
    var a, names, links, sizes := PendingOf(u, s), NamesSupplied(u, s), LinksSupplied(u, s), SizesSupplied(u, s);
    && ((forall n :: n in names ==> n == e.hdr.name)
        <==> AllEqual(names) && (names == {} || NameInForce(a) || hdr.name in names))
    && (names == {} ==> e.hdr.name == hdr.name && hdr.nameIsUtf8)
    && ((forall n :: n in links ==> n == e.hdr.linkname)
        <==> AllEqual(links) && (links == {} || LinkInForce(a) || hdr.linkname in links))
    && (links == {} ==> e.hdr.linkname == hdr.linkname && (IsLink(hdr.typeflag) ==> hdr.linknameIsUtf8))
    && (LinkInForce(a) ==> IsLink(e.hdr.typeflag))
    && ((forall n :: n in sizes ==> n == Pax.NumberString(e.hdr.size)) <==> AllEqual(sizes))
    && (sizes == {} ==> e.hdr.size == hdr.size)
    && (WithoutBody(e.hdr.typeflag) || e.slashDirectory ==> hdr.size == 0 && e.hdr.size == 0)
    && e.hdr.typeflag == hdr.typeflag
    && e.slashDirectory == SlashDirectory(hdr.typeflag, e.hdr.name)
  }

  /** A value taken from those supplied, or else the header's own. */
  lemma TakenFrom(values: set<string>, inForce: bool, own: string, taken: string)
    requires if inForce then taken in values else taken == own
    ensures (forall n :: n in values ==> n == taken) <==> AllEqual(values) && (values == {} || inForce || own in values)
  {
    if (forall n :: n in values ==> n == taken) && values != {} && !inForce {
      var n :| n in values;
      assert n == own;
    }
  }

  lemma NamesAgreeExactly(u: Pax.Utf8, hdr: Header, s: Sources)
    requires EntryNames(hdr, PendingOf(u, s)).Ok?
    ensures var a, names, links, r := PendingOf(u, s), NamesSupplied(u, s), LinksSupplied(u, s), EntryNames(hdr, PendingOf(u, s)).value;
            && ((forall n :: n in names ==> n == r.0)
                <==> AllEqual(names) && (names == {} || NameInForce(a) || hdr.name in names))
            && ((forall n :: n in links ==> n == r.1)
                <==> AllEqual(links) && (links == {} || LinkInForce(a) || hdr.linkname in links))
            && (NameInForce(a) ==> names != {}) && (LinkInForce(a) ==> links != {})
  {
    hide PendingOf, PaxValues, PaxValue, AllEqual;
    HeldIsSupplied(u, s, Pax.SPARSE_NAME);
    HeldIsSupplied(u, s, Pax.PATH);
    HeldIsSupplied(u, s, Pax.LINKPATH);
    var a, r := PendingOf(u, s), EntryNames(hdr, PendingOf(u, s)).value;
    assert a.longName == s.longName && a.longLink == s.longLink by { SameLongs(u, s); }
    TakenFrom(NamesSupplied(u, s), NameInForce(a), hdr.name, r.0);
    TakenFrom(LinksSupplied(u, s), LinkInForce(a), hdr.linkname, r.1);
  }

  lemma SameLongs(u: Pax.Utf8, s: Sources)
    ensures PendingOf(u, s).longName == s.longName && PendingOf(u, s).longLink == s.longLink
  {
  }

  lemma SizeAgreesExactly(u: Pax.Utf8, hdr: Header, s: Sources)
    requires EntrySize(hdr, PendingOf(u, s).pax).Ok?
    ensures var sizes, size := SizesSupplied(u, s), EntrySize(hdr, PendingOf(u, s).pax).value.0;
            && ((forall n :: n in sizes ==> n == Pax.NumberString(size)) <==> AllEqual(sizes))
            && (sizes == {} ==> size == hdr.size)
  {
    hide PendingOf, PaxValues;
    HeldIsSupplied(u, s, "size");
    var pax := PendingOf(u, s).pax;
    if pax.Some? && "size" in pax.value {
      Pax.PaxSizeExactly(pax.value["size"], EntrySize(hdr, pax).value.0);
    }
  }

  lemma ResolveAgrees(env: Env, hdr: Header, block: seq<Byte>, s: Sources, headerAt: nat)
    requires |block| == BLOCK && ResolveEntry(env, hdr, block, PendingOf(env.utf8, s), headerAt).Ok?
    ensures AgreesEach(env.utf8, hdr, s, ResolveEntry(env, hdr, block, PendingOf(env.utf8, s), headerAt).value)
  {
    hide PendingOf, NamesSupplied, LinksSupplied, SizesSupplied, AllEqual;
    NamesAgreeExactly(env.utf8, hdr, s);
    SizeAgreesExactly(env.utf8, hdr, s);
  }

  lemma EntryAgrees(env: Env, bytes: seq<Byte>, pos: nat, hdr: Header, s: Sources, room: bool)
    requires pos + BLOCK <= |bytes| && EntryAt(env, bytes, pos, hdr, PendingOf(env.utf8, s), room).Ok?
    ensures AgreesEach(env.utf8, hdr, s, EntryAt(env, bytes, pos, hdr, PendingOf(env.utf8, s), room).value)
  {
    hide ResolveEntry, PlaceEntry, PendingOf;
    ResolveAgrees(env, hdr, bytes[pos..pos + BLOCK], s, pos);
  }

  // ---------------------------------------------------------------- in the archive

  /** The records are the whole body of an x or X header between two positions of the archive. */
  ghost predicate IsBody(env: Env, bytes: seq<Byte>, from: nat, to: nat, rs: seq<Pax.Record>) {
    exists p: nat, hdr: Header ::
      && from <= p && p + BLOCK + hdr.size <= to <= |bytes|
      && HeadAt(env, bytes, p) == Head(hdr) && IsPaxHeader(hdr.typeflag) && hdr.typeflag != TF_PAX_GLOBAL
      && Pax.AllLegal(env.utf8, rs) && Pax.Concat(rs) == bytes[p + BLOCK..p + BLOCK + hdr.size]
  }

  /** The extension headers at pos, with the records of the one that holds pax records for an entry. */
  lemma {:induction false} SpanSources(env: Env, bytes: seq<Byte>, from: nat, pos: nat, exts: seq<Ext>) returns (pax: Option<seq<Pax.Record>>)
    requires from <= pos <= |bytes| && SpanEnd(env, bytes, pos, exts).Some?
    ensures pos <= SpanEnd(env, bytes, pos, exts).value <= |bytes|
    ensures Collected(exts).pax == if pax.Some? then Some(Pax.LastWins(env.utf8, pax.value, map[])) else None
    ensures pax.Some? ==> IsBody(env, bytes, from, SpanEnd(env, bytes, pos, exts).value, pax.value)
    decreases |exts|
  {
    if exts == [] {
      pax := None;
    } else {
      var t := TokenAt(env, bytes, pos);
      pax := SpanSources(env, bytes, from, t.next, exts[1..]);
      if exts[0].Local? {
        var rs := LocalBody(env, bytes, from, pos, SpanEnd(env, bytes, pos, exts).value);
        pax := Some(rs);
      }
    }
  }

  lemma LocalBody(env: Env, bytes: seq<Byte>, from: nat, pos: nat, to: nat) returns (rs: seq<Pax.Record>)
    requires from <= pos && var t := TokenAt(env, bytes, pos); t.Extension? && t.ext.Local? && t.next <= to <= |bytes|
    ensures IsBody(env, bytes, from, to, rs)
    ensures TokenAt(env, bytes, pos).ext.records == Pax.LastWins(env.utf8, rs, map[])
  {
    hide Pax.ParseFrom, Pax.LastWins, Pax.Concat, Pax.Legal, HasKey, GnuLongValue;
    var hdr := HeadAt(env, bytes, pos).hdr;
    assert hdr.size <= Padded(hdr.size);
    var body := bytes[pos + BLOCK..pos + BLOCK + hdr.size];
    rs := Pax.ParseSound(env.utf8, body, map[]);
  }

  /** Where the headers of member i begin: at pos, or where the previous body ends. */
  ghost function StartOf(ms: seq<Member>, pos: nat, i: nat): nat
    requires i < |ms|
  {
    if i == 0 then pos else ms[i - 1].entry.bodyStart + ms[i - 1].entry.paddedSize
  }

  /** In every archive the grammar derives, hence for every entry the walk returns, each entry stands in
      that relation to the very records of the x or X header, L and K records before it, and to those
      of no other entry. */
  lemma {:induction false} MembersAgree(env: Env, bytes: seq<Byte>, pos: nat, ms: seq<Member>, trailing: seq<Ext>, i: nat)
    requires pos <= |bytes| && Derives(env, bytes, pos, [], ms, trailing) && i < |ms|
    ensures AtMostOneEach(ms[i].exts)
    ensures exists hdr: Header, s: Sources ::
              && HeadAt(env, bytes, ms[i].entry.headerAt) == Head(hdr)
              && PendingOf(env.utf8, s) == Collected(ms[i].exts)
              && (s.pax.Some? ==> IsBody(env, bytes, StartOf(ms, pos, i), ms[i].entry.headerAt, s.pax.value))
              && AgreesEach(env.utf8, hdr, s, ms[i].entry)
    decreases i
  {
    hide EntryAt, AgreesEach, AtMostOneEach, PendingOf, IsBody, Collected, TokenAt;
    assert ms[0].exts[0..] == ms[0].exts;
    if i == 0 {
      FirstAgrees(env, bytes, pos, ms[0]);
    } else {
      var m := ms[0];
      var _ := SpanSources(env, bytes, pos, pos, m.exts);
      var next := m.entry.bodyStart + m.entry.paddedSize;
      MembersAgree(env, bytes, next, ms[1..], trailing, i - 1);
      assert StartOf(ms[1..], next, i - 1) == StartOf(ms, pos, i);
    }
  }

  lemma FirstAgrees(env: Env, bytes: seq<Byte>, pos: nat, m: Member)
    requires pos <= |bytes| && SpanEnd(env, bytes, pos, m.exts).Some?
    requires IsEntry(env, bytes, SpanEnd(env, bytes, pos, m.exts).value, m.exts, m.entry)
    ensures exists hdr: Header, s: Sources ::
              && HeadAt(env, bytes, m.entry.headerAt) == Head(hdr)
              && PendingOf(env.utf8, s) == Collected(m.exts)
              && (s.pax.Some? ==> IsBody(env, bytes, pos, m.entry.headerAt, s.pax.value))
              && AgreesEach(env.utf8, hdr, s, m.entry)
  {
    hide EntryAt, AgreesEach, AtMostOneEach, PendingOf, IsBody, Collected;
    var at := SpanEnd(env, bytes, pos, m.exts).value;
    var pax := SpanSources(env, bytes, pos, pos, m.exts);
    var hdr := TokenAt(env, bytes, at).hdr;
    var c := Collected(m.exts);
    var s := Sources(pax, c.longName, c.longLink);
    PendingIs(env.utf8, s);
    EntryAgrees(env, bytes, at, hdr, s, true);
    assert HeadAt(env, bytes, m.entry.headerAt) == Head(hdr);
  }

  lemma PendingIs(u: Pax.Utf8, s: Sources)
    ensures PendingOf(u, s) == Pending(if s.pax.Some? then Some(Pax.LastWins(u, s.pax.value, map[])) else None, s.longName, s.longLink)
  {
  }

  // ---------------------------------------------------------------- records that are overruled

  /** Two names that differ do pass: any regular file whose header is sound and whose body fits takes
      the sparse name, and its path record is ignored without an error. */
  lemma SparseNameHidesPath(env: Env, bytes: seq<Byte>, pos: nat, hdr: Header, sparse: Pax.Record, path: Pax.Record)
    requires pos + BLOCK + Padded(hdr.size) <= |bytes| && hdr.size <= env.policy.maxEntryBytes && hdr.typeflag == TF_REGULAR
    requires env.utf8.decode(sparse.key) == Pax.SPARSE_NAME && env.utf8.decode(path.key) == Pax.PATH
    requires var x, y := env.utf8.decode(sparse.value), env.utf8.decode(path.value); x != "" && y != "" && x != y && x[|x| - 1] != '/'
    ensures var s := Sources(Some([sparse, path]), None, None);
            var r := EntryAt(env, bytes, pos, hdr, PendingOf(env.utf8, s), true);
            r.Ok? && r.value.hdr.name == env.utf8.decode(sparse.value) && env.utf8.decode(path.value) in NamesSupplied(env.utf8, s)
  {
    hide EntryAt;
    TwoRecords(env.utf8, sparse, path, Pax.PATH);
    TwoRecords(env.utf8, sparse, path, Pax.SPARSE_NAME);
    NamedByPax(env, bytes, pos, hdr, PendingOf(env.utf8, Sources(Some([sparse, path]), None, None)), env.utf8.decode(sparse.value));
  }

  /** A sound regular entry whose pax header supplies only a name. */
  lemma NamedByPax(env: Env, bytes: seq<Byte>, pos: nat, hdr: Header, a: Pending, name: string)
    requires pos + BLOCK + Padded(hdr.size) <= |bytes| && hdr.size <= env.policy.maxEntryBytes && hdr.typeflag == TF_REGULAR
    requires a.pax.Some? && a.longName.None? && a.longLink.None?
    requires Pax.LINKPATH !in a.pax.value && "size" !in a.pax.value
    requires PaxEntryName(a.pax) == Some(name) && name != "" && name[|name| - 1] != '/'
    ensures var r := EntryAt(env, bytes, pos, hdr, a, true); r.Ok? && r.value.hdr.name == name
  {
    hide Padded, HasKey;
  }

  /** Nor does a repeated key raise an error: of two path records with different values, both legal, any
      sound regular entry takes the last. */
  lemma RepeatedPathHides(env: Env, bytes: seq<Byte>, pos: nat, hdr: Header, first: Pax.Record, last: Pax.Record)
    requires pos + BLOCK + Padded(hdr.size) <= |bytes| && hdr.size <= env.policy.maxEntryBytes && hdr.typeflag == TF_REGULAR
    requires Pax.Legal(env.utf8, first) && Pax.Legal(env.utf8, last)
    requires env.utf8.decode(first.key) == Pax.PATH && env.utf8.decode(last.key) == Pax.PATH
    requires var x, y := env.utf8.decode(first.value), env.utf8.decode(last.value); x != "" && y != "" && x != y && y[|y| - 1] != '/'
    ensures var s := Sources(Some([first, last]), None, None);
            var r := EntryAt(env, bytes, pos, hdr, PendingOf(env.utf8, s), true);
            && Pax.ParseFrom(env.utf8, Pax.Text(first) + Pax.Text(last), map[]) == Pax.Parsed(PendingOf(env.utf8, s).pax.value)
            && r.Ok? && r.value.hdr.name == env.utf8.decode(last.value) && env.utf8.decode(first.value) in NamesSupplied(env.utf8, s)
  {
    hide EntryAt, Pax.ParseFrom, Pax.Text, Pax.Legal, Pax.LastWins;
    TwoRecords(env.utf8, first, last, Pax.PATH);
    ParseTwo(env.utf8, first, last);
    NamedByPax(env, bytes, pos, hdr, PendingOf(env.utf8, Sources(Some([first, last]), None, None)), env.utf8.decode(last.value));
  }

  lemma ParseTwo(u: Pax.Utf8, a: Pax.Record, b: Pax.Record)
    requires Pax.Legal(u, a) && Pax.Legal(u, b)
    ensures Pax.ParseFrom(u, Pax.Text(a) + Pax.Text(b), map[]) == Pax.Parsed(Pax.LastWins(u, [a, b], map[]))
  {
    hide Pax.ParseFrom, Pax.Text, Pax.Legal, Pax.LastWins;
    var rs := [a, b];
    assert rs[1..] == [b] && rs[1..][1..] == [];
    assert Pax.Concat(rs[1..]) == Pax.Text(b) + Pax.Concat([]);
    assert Pax.Concat(rs) == Pax.Text(a) + Pax.Concat(rs[1..]);
    assert Pax.Text(b) + [] == Pax.Text(b);
    Pax.ParseComplete(u, rs, map[]);
  }

  lemma TwoRecords(u: Pax.Utf8, a: Pax.Record, b: Pax.Record, key: string)
    ensures Pax.LastWins(u, [a, b], map[]) == map[u.decode(a.key) := u.decode(a.value)][u.decode(b.key) := u.decode(b.value)]
    ensures u.decode(a.key) == key ==> u.decode(a.value) in ValuesOf(u, [a, b], key)
    ensures u.decode(b.key) == key ==> u.decode(b.value) in ValuesOf(u, [a, b], key)
  {
    var rs := [a, b];
    var one := map[u.decode(a.key) := u.decode(a.value)];
    assert rs[1..] == [b] && [b][1..] == [];
    assert rs[0] == a && rs[1] == b;
    var two := one[u.decode(b.key) := u.decode(b.value)];
    assert Pax.LastWins(u, [], two) == two;
    assert Pax.LastWins(u, [b], one) == two;
    assert map[][u.decode(a.key) := u.decode(a.value)] == one;
  }
}
