/**
 Pax extended header records (lib/archive-tar-read.js, `_parsePaxRecords`; the writer's
 `_buildPaxRecord` in lib/archive-tar.js): "<length> <key>=<value>\n", where the length
 counts the whole record, its own digits included. The runtime's UTF-8 codec is a parameter.
 */
module TarPax {
  import opened Bytes

  const NUL: Byte := 0x00
  const TAB: Byte := 0x09
  const NEWLINE: Byte := 0x0a
  const SPACE: Byte := 0x20
  const EQUALS: Byte := 0x3d

  /** `buf.toString("utf8")` and `isUtf8` */
  datatype Utf8 = Utf8(decode: seq<Byte> -> string, valid: seq<Byte> -> bool)

  datatype PaxError = BadPaxRecord | BadPaxName | NameNotUtf8

  datatype Parsed = Parsed(records: map<string, string>) | Failed(error: PaxError)

  const PATH := "path"
  const LINKPATH := "linkpath"
  const SPARSE_NAME := "GNU.sparse.name"

  predicate IsNameKey(key: string) {
    key == PATH || key == LINKPATH || key == SPARSE_NAME
  }

  // ---------------------------------------------------------------- the format

  /** One record as its parts; `digits` is the length field. */
  datatype Record = Record(digits: seq<Byte>, key: seq<Byte>, value: seq<Byte>)

  function Text(r: Record): seq<Byte> {
    r.digits + [SPACE] + r.key + [EQUALS] + r.value + [NEWLINE]
  }

  /** The length field is a numeral that counts the record. */
  predicate SelfCounting(r: Record) {
    && r.digits != []
    && AllDigits(r.digits)
    && DecimalValue(r.digits) == |Text(r)|
  }

  predicate LegalKey(key: seq<Byte>) {
    key != [] && EQUALS !in key && NUL !in key && key[0] != SPACE && key[0] != TAB
  }

  /** What the value of a name-carrying key may hold; the first objection, if any. */
  function NameObjection(u: Utf8, key: string, value: seq<Byte>): (e: seq<PaxError>)
    ensures |e| <= 1
  {
    if !IsNameKey(key) then []
    else if NUL in value then [BadPaxName]
    else if key == LINKPATH && value == [] then [BadPaxName]
    else if !u.valid(value) then [NameNotUtf8]
    else []
  }

  predicate Legal(u: Utf8, r: Record) {
    && SelfCounting(r)
    && LegalKey(r.key)
    && NameObjection(u, u.decode(r.key), r.value) == []
  }

  function Concat(rs: seq<Record>): seq<Byte> {
    if rs == [] then [] else Text(rs[0]) + Concat(rs[1..])
  }

  /** Later records win over earlier ones with the same key. */
  function LastWins(u: Utf8, rs: seq<Record>, start: map<string, string>): map<string, string> {
    if rs == [] then start
    else LastWins(u, rs[1..], start[u.decode(rs[0].key) := u.decode(rs[0].value)])
  }

  /** The format byte by byte: the length in decimal digits, a space, the key, an equals sign, the value
      and a newline; the length counts all of it. The key is not empty, has no equals sign and no NUL and
      does not begin with a space or a tab; a name has no NUL and is UTF-8, and a link target is not
      empty. */
  lemma LegalExactly(u: Utf8, r: Record)
    ensures Text(r) == r.digits + [0x20] + r.key + [0x3d] + r.value + [0x0a]
    ensures Legal(u, r)
       <==> && r.digits != [] && (forall i :: 0 <= i < |r.digits| ==> 0x30 <= r.digits[i] <= 0x39)
            && DecimalValue(r.digits) == |r.digits| + |r.key| + |r.value| + 3
            && r.key != [] && 0x3d !in r.key && 0x00 !in r.key && r.key[0] != 0x20 && r.key[0] != 0x09
            && var name := u.decode(r.key);
               (name == "path" || name == "linkpath" || name == "GNU.sparse.name") ==>
                 0x00 !in r.value && (name == "linkpath" ==> r.value != []) && u.valid(r.value)
  {
    assert |Text(r)| == |r.digits| + |r.key| + |r.value| + 3;
  }

  // ---------------------------------------------------------------- the parser

  /** Number of leading digits. */
  function DigitRun(s: seq<Byte>): (n: nat)
    ensures n <= |s|
    ensures AllDigits(s[..n])
    ensures n < |s| ==> !IsDigit(s[n])
  {
    if s == [] || !IsDigit(s[0]) then 0
    else
      var n := 1 + DigitRun(s[1..]);
      assert s[..n] == [s[0]] + s[1..][..n - 1];
      n
  }

  /** `buf.indexOf(b, from)` */
  function IndexOf(s: seq<Byte>, b: Byte, from: nat): (i: int)
    requires from <= |s|
    ensures i == -1 || (from <= i < |s| && s[i] == b)
    ensures forall j :: from <= j < (if i == -1 then |s| else i) ==> s[j] != b
    decreases |s| - from
  {
    if from == |s| then -1
    else if s[from] == b then from
    else IndexOf(s, b, from + 1)
  }

  datatype Step = Stop(error: PaxError) | Took(record: Record)

  /** Reads the record at the front of s. */
  function TakeRecord(u: Utf8, s: seq<Byte>): Step {
    var n := DigitRun(s);
    if n == 0 || n >= |s| || s[n] != SPACE then Stop(BadPaxRecord)
    else
      var len := DecimalValue(s[..n]);
      if len > |s| || len - 1 <= n + 1 || s[len - 1] != NEWLINE then Stop(BadPaxRecord)
      else TakeBody(u, s, n, len)
  }

  /** The key and value of a record of length len whose length field has n digits. */
  function TakeBody(u: Utf8, s: seq<Byte>, n: nat, len: nat): Step
    requires n + 2 < len <= |s|
  {
    var keyStart := n + 1;
    var eq := IndexOf(s, EQUALS, keyStart);
    if eq < 0 || eq >= len - 1 || eq == keyStart then Stop(BadPaxRecord)
    else if s[keyStart] == SPACE || s[keyStart] == TAB || NUL in s[keyStart..eq] then Stop(BadPaxRecord)
    else
      var r := Record(s[..n], s[keyStart..eq], s[eq + 1..len - 1]);
      var objection := NameObjection(u, u.decode(r.key), r.value);
      if objection != [] then Stop(objection[0]) else Took(r)
  }

  lemma TakeBodySound(u: Utf8, s: seq<Byte>, n: nat, len: nat)
    requires n + 2 < len <= |s| && s[n] == SPACE && s[len - 1] == NEWLINE
    requires TakeBody(u, s, n, len).Took?
    ensures var r := TakeBody(u, s, n, len).record;
            && r.digits == s[..n]
            && LegalKey(r.key) && NameObjection(u, u.decode(r.key), r.value) == []
            && Text(r) == s[..len]
  {
    var eq := IndexOf(s, EQUALS, n + 1);
    assert s[..len] == s[..n] + [s[n]] + s[n + 1..eq] + [s[eq]] + s[eq + 1..len - 1] + [s[len - 1]];
  }

  /** What TakeRecord returns is legal and sits at the front of s. */
  lemma TakeRecordSound(u: Utf8, s: seq<Byte>)
    requires TakeRecord(u, s).Took?
    ensures var r := TakeRecord(u, s).record;
            && Legal(u, r)
            && |Text(r)| <= |s|
            && s[..|Text(r)|] == Text(r)
  {
    hide TakeBody, LegalKey, Text;
    var n := DigitRun(s);
    TakeBodySound(u, s, n, DecimalValue(s[..n]));
  }

  /** Where the parts of a record lie when it is followed by rest. */
  lemma TextLayout(r: Record, rest: seq<Byte>)
    ensures var s, d, L := Text(r) + rest, |r.digits|, |Text(r)|;
            var eq := d + 1 + |r.key|;
            && L == eq + |r.value| + 2
            && s == r.digits + ([SPACE] + r.key + [EQUALS] + r.value + [NEWLINE] + rest)
            && s[..d] == r.digits && s[d] == SPACE
            && s[d + 1..eq] == r.key && s[eq] == EQUALS
            && s[eq + 1..L - 1] == r.value && s[L - 1] == NEWLINE
  {
  }

  lemma FirstEquals(s: seq<Byte>, from: nat, eq: nat)
    requires from <= eq < |s| && s[eq] == EQUALS && EQUALS !in s[from..eq]
    ensures IndexOf(s, EQUALS, from) == eq
  {
    forall j | from <= j < eq
      ensures s[j] != EQUALS
    {
      assert s[j] == s[from..eq][j - from];
    }
  }

  /** What is said of a record that is well made: it is taken, unless its value is objected to. */
  function Verdict(u: Utf8, r: Record): Step {
    var objection := NameObjection(u, u.decode(r.key), r.value);
    if objection != [] then Stop(objection[0]) else Took(r)
  }

  lemma TakeBodyComplete(u: Utf8, r: Record, s: seq<Byte>, n: nat, len: nat)
    requires LegalKey(r.key)
    requires len == n + |r.key| + |r.value| + 3 <= |s|
    requires s[..n] == r.digits && s[n + 1..n + 1 + |r.key|] == r.key && s[n + 1 + |r.key|] == EQUALS
    requires s[n + 2 + |r.key|..len - 1] == r.value
    ensures TakeBody(u, s, n, len) == Verdict(u, r)
  {
    var eq := n + 1 + |r.key|;
    FirstEquals(s, n + 1, eq);
    assert s[n + 1] == r.key[0] by { assert s[n + 1..eq][0] == r.key[0]; }
  }

  /** A legal record at the front of s is what TakeRecord returns; another that is well made is refused
      for its value. */
  lemma TakeRecordComplete(u: Utf8, r: Record, rest: seq<Byte>)
    requires SelfCounting(r) && LegalKey(r.key)
    ensures TakeRecord(u, Text(r) + rest) == Verdict(u, r)
    ensures Legal(u, r) ==> TakeRecord(u, Text(r) + rest) == Took(r)
  {
    hide TakeBody;
    var s := Text(r) + rest;
    TextLayout(r, rest);
    DigitRunOf(r.digits, [SPACE] + r.key + [EQUALS] + r.value + [NEWLINE] + rest);
    TakeBodyComplete(u, r, s, |r.digits|, |Text(r)|);
  }

  lemma {:induction false} DigitRunOf(d: seq<Byte>, rest: seq<Byte>)
    requires AllDigits(d)
    requires rest != [] && !IsDigit(rest[0])
    ensures DigitRun(d + rest) == |d|
  {
    if d == [] {
      assert d + rest == rest;
    } else {
      assert (d + rest)[1..] == d[1..] + rest;
      DigitRunOf(d[1..], rest);
    }
  }

  lemma ConcatEmpty(rs: seq<Record>)
    ensures Concat(rs) == [] <==> rs == []
  {
    if rs != [] { assert |Concat(rs)| >= |Text(rs[0])| >= 3; }
  }

  function ParseFrom(u: Utf8, s: seq<Byte>, out: map<string, string>): Parsed
    decreases |s|
  {
    if s == [] then Parsed(out)
    else
      match TakeRecord(u, s)
      case Stop(e) => Failed(e)
      case Took(r) =>
        TakeRecordSound(u, s);
        ParseFrom(u, s[|Text(r)|..], out[u.decode(r.key) := u.decode(r.value)])
  }

  lemma DecimalStep(s: seq<Byte>, c: nat)
    requires c < |s| && AllDigits(s[..c]) && IsDigit(s[c])
    ensures AllDigits(s[..c + 1])
    ensures DecimalValue(s[..c + 1]) == DecimalValue(s[..c]) * 10 + (s[c] - ZERO)
  {
    assert s[..c + 1][..c] == s[..c];
  }

  lemma PrefixOfPrefix(s: seq<Byte>, n: nat, i: nat)
    requires i <= n <= |s|
    ensures s[..n][..i] == s[..i]
  {
  }

  /** The length field at pos: its digits are accumulated one by one and the sum is checked against
      the remaining bytes after every digit. */
  method ScanLength(buf: seq<Byte>, pos: nat) returns (cursor: nat, len: nat, overrun: bool)
    requires pos < |buf|
    ensures var s := buf[pos..];
            var n := DigitRun(s);
            if overrun then DecimalValue(s[..n]) > |s|
            else cursor == pos + n && len == DecimalValue(s[..n]) <= |s|
  {
    ghost var s := buf[pos..];
    ghost var n := DigitRun(s);
    var remaining := |buf| - pos;
    cursor, len := pos, 0;
    while cursor < |buf| && IsDigit(buf[cursor])
      invariant pos <= cursor <= pos + n
      invariant AllDigits(s[..cursor - pos])
      invariant len == DecimalValue(s[..cursor - pos]) <= remaining
      decreases |buf| - cursor
    {
      var c := cursor - pos;
      assert s[c] == buf[cursor];
      assert c < n;
      DecimalStep(s, c);
      len := len * 10 + (buf[cursor] - ZERO);
      if len > remaining {
        PrefixOfPrefix(s, n, c + 1);
        PrefixValue(s[..n], c + 1);
        return cursor, len, true;
      }
      cursor := cursor + 1;
    }
    overrun := false;
  }

  method ReadBody(u: Utf8, buf: seq<Byte>, pos: nat, cursor: nat, len: nat) returns (st: Step)
    requires pos <= cursor && cursor + 2 < pos + len <= |buf|
    ensures st == TakeBody(u, buf[pos..], cursor - pos, len)
  {
    hide IndexOf, IsNameKey;
    ghost var s := buf[pos..];
    var keyStart, end := cursor + 1, pos + len;
    var eqIdx := IndexOf(buf, EQUALS, keyStart);
    IndexOfShift(buf, pos, EQUALS, keyStart);
    if eqIdx < 0 || eqIdx >= end - 1 { return Stop(BadPaxRecord); }
    if eqIdx == keyStart { return Stop(BadPaxRecord); }
    if buf[keyStart] == SPACE || buf[keyStart] == TAB { return Stop(BadPaxRecord); }
    var keyBytes := buf[keyStart..eqIdx];
    assert keyBytes == s[keyStart - pos..eqIdx - pos];
    if NUL in keyBytes { return Stop(BadPaxRecord); }
    var key := u.decode(keyBytes);
    var valueBytes := buf[eqIdx + 1..end - 1];
    assert valueBytes == s[eqIdx + 1 - pos..len - 1];
    if IsNameKey(key) {
      if NUL in valueBytes { return Stop(BadPaxName); }
      if key == LINKPATH && |valueBytes| == 0 { return Stop(BadPaxName); }
      if !u.valid(valueBytes) { return Stop(NameNotUtf8); }
    }
    assert buf[pos..cursor] == s[..cursor - pos];
    st := Took(Record(buf[pos..cursor], keyBytes, valueBytes));
  }

  /** One turn of the scan: the record at pos, and where the next one starts. */
  method ReadRecord(u: Utf8, buf: seq<Byte>, pos: nat) returns (st: Step, end: nat)
    requires pos < |buf|
    ensures st == TakeRecord(u, buf[pos..])
    ensures st.Took? ==> end == pos + |Text(st.record)|
  {
    end := pos;
    var cursor, len, overrun := ScanLength(buf, pos);
    if overrun { return Stop(BadPaxRecord), end; }
    if cursor == pos || cursor >= |buf| || buf[cursor] != SPACE {
      return Stop(BadPaxRecord), end;
    }
    if pos + len - 1 <= cursor + 1 || buf[pos + len - 1] != NEWLINE {
      return Stop(BadPaxRecord), end;
    }
    st := ReadBody(u, buf, pos, cursor, len);
    end := pos + len;
    if st.Took? {
      TakeRecordSound(u, buf[pos..]);
    }
  }

  /** `_parsePaxRecords` */
  method ParsePaxRecords(u: Utf8, buf: seq<Byte>) returns (r: Parsed)
    ensures r == ParseFrom(u, buf, map[])
  {
    var out: map<string, string> := map[];
    var pos := 0;
    while pos < |buf|
      invariant 0 <= pos <= |buf|
      invariant ParseFrom(u, buf, map[]) == ParseFrom(u, buf[pos..], out)
      decreases |buf| - pos
    {
      var st, end := ReadRecord(u, buf, pos);
      if st.Stop? { return Failed(st.error); }
      TakeRecordSound(u, buf[pos..]);
      out := out[u.decode(st.record.key) := u.decode(st.record.value)];
      assert buf[pos..][|Text(st.record)|..] == buf[end..];
      pos := end;
    }
    r := Parsed(out);
  }

  lemma {:induction false} IndexOfShift(buf: seq<Byte>, pos: nat, b: Byte, from: nat)
    requires pos <= from <= |buf|
    ensures IndexOf(buf, b, from) == (if IndexOf(buf[pos..], b, from - pos) == -1 then -1 else IndexOf(buf[pos..], b, from - pos) + pos)
    decreases |buf| - from
  {
    if from < |buf| {
      IndexOfShift(buf, pos, b, from + 1);
    }
  }

  // ---------------------------------------------------------------- soundness and completeness

  ghost predicate AllLegal(u: Utf8, rs: seq<Record>) {
    forall i :: 0 <= i < |rs| ==> Legal(u, rs[i])
  }

  /** On success the body is tiled, with no gap or overlap, by legal records, and the result is their
      last-wins map. */
  lemma {:induction false} ParseSound(u: Utf8, s: seq<Byte>, out: map<string, string>) returns (rs: seq<Record>)
    requires ParseFrom(u, s, out).Parsed?
    ensures AllLegal(u, rs) && Concat(rs) == s
    ensures ParseFrom(u, s, out) == Parsed(LastWins(u, rs, out))
    decreases |s|
  {
    if s == [] {
      rs := [];
    } else {
      var r := TakeRecord(u, s).record;
      TakeRecordSound(u, s);
      var rest := s[|Text(r)|..];
      var tail := ParseSound(u, rest, out[u.decode(r.key) := u.decode(r.value)]);
      rs := [r] + tail;
      assert s == Text(r) + rest;
      assert rs[1..] == tail;
    }
  }

  /** Parsing the concatenation of any legal records gives their last-wins map. */
  lemma {:induction false} ParseComplete(u: Utf8, rs: seq<Record>, out: map<string, string>)
    requires AllLegal(u, rs)
    ensures ParseFrom(u, Concat(rs), out) == Parsed(LastWins(u, rs, out))
  {
    if rs != [] {
      var r, rest := rs[0], Concat(rs[1..]);
      TakeRecordComplete(u, r, rest);
      assert Concat(rs)[|Text(r)|..] == rest;
      ParseComplete(u, rs[1..], out[u.decode(r.key) := u.decode(r.value)]);
    }
  }

  /** The parser accepts exactly the concatenations of legal records, and reads each as its
      last-wins map. */
  lemma ParseExactly(u: Utf8, s: seq<Byte>, m: map<string, string>)
    ensures ParseFrom(u, s, map[]) == Parsed(m)
       <==> exists rs: seq<Record> :: AllLegal(u, rs) && Concat(rs) == s && LastWins(u, rs, map[]) == m
  {
    if ParseFrom(u, s, map[]) == Parsed(m) {
      var rs := ParseSound(u, s, map[]);
    }
    if rs: seq<Record> :| AllLegal(u, rs) && Concat(rs) == s && LastWins(u, rs, map[]) == m {
      ParseComplete(u, rs, map[]);
    }
  }

  // ---------------------------------------------------------------- refusals

  /** A record that is well made, whatever its value, stands at the front of s. */
  ghost predicate Begins(s: seq<Byte>, r: Record) {
    SelfCounting(r) && LegalKey(r.key) && Text(r) <= s
  }

  /** What a name may not be. */
  ghost predicate ValueObjected(u: Utf8, r: Record, p: PaxError) {
    var name := u.decode(r.key);
    && (name == "path" || name == "linkpath" || name == "GNU.sparse.name")
    && if 0x00 in r.value || (name == "linkpath" && r.value == []) then p == BadPaxName
       else !u.valid(r.value) && p == NameNotUtf8
  }

  /** The objection to s: no well-made record stands at its front, or one does and its value is objected
      to. */
  ghost predicate Objects(u: Utf8, s: seq<Byte>, p: PaxError) {
    || (p == BadPaxRecord && forall r: Record :: !Begins(s, r))
    || exists r: Record :: Begins(s, r) && ValueObjected(u, r, p)
  }

  lemma VerdictExactly(u: Utf8, r: Record, p: PaxError)
    ensures Verdict(u, r) == Stop(p) <==> ValueObjected(u, r, p)
    ensures ValueObjected(u, r, p) ==> p != BadPaxRecord
  {
  }

  lemma NameStop(u: Utf8, s: seq<Byte>, n: nat, len: nat) returns (r: Record)
    requires n + 2 < len <= |s| && s[n] == SPACE && s[len - 1] == NEWLINE
    requires TakeBody(u, s, n, len).Stop? && TakeBody(u, s, n, len).error != BadPaxRecord
    ensures r.digits == s[..n] && LegalKey(r.key) && Text(r) == s[..len] && Verdict(u, r) == TakeBody(u, s, n, len)
  {
    var eq := IndexOf(s, EQUALS, n + 1);
    r := Record(s[..n], s[n + 1..eq], s[eq + 1..len - 1]);
    InPieces(s, n, eq, len);
  }

  lemma InPieces(s: seq<Byte>, n: nat, eq: nat, len: nat)
    requires n < eq < len - 1 < |s|
    ensures s[..len] == s[..n] + [s[n]] + s[n + 1..eq] + [s[eq]] + s[eq + 1..len - 1] + [s[len - 1]]
  {
  }

  lemma StopNames(u: Utf8, s: seq<Byte>) returns (r: Record)
    requires TakeRecord(u, s).Stop? && TakeRecord(u, s).error != BadPaxRecord
    ensures Begins(s, r) && Verdict(u, r) == TakeRecord(u, s)
  {
    hide TakeBody, LegalKey, Text, Verdict;
    var n := DigitRun(s);
    r := NameStop(u, s, n, DecimalValue(s[..n]));
  }

  lemma BeginsTaken(u: Utf8, s: seq<Byte>, r: Record)
    requires Begins(s, r)
    ensures TakeRecord(u, s) == Verdict(u, r)
  {
    hide TakeRecord, Verdict, LegalKey;
    var rest := s[|Text(r)|..];
    assert s == Text(r) + rest;
    TakeRecordComplete(u, r, rest);
  }

  lemma StopExactly(u: Utf8, s: seq<Byte>, p: PaxError)
    ensures TakeRecord(u, s) == Stop(p) <==> Objects(u, s, p)
  {
    hide TakeRecord, Verdict, Begins, ValueObjected;
    forall r: Record | Begins(s, r)
      ensures TakeRecord(u, s) == Verdict(u, r) && (Verdict(u, r) == Stop(p) <==> ValueObjected(u, r, p))
      ensures TakeRecord(u, s) != Stop(BadPaxRecord)
    {
      BeginsTaken(u, s, r);
      VerdictExactly(u, r, p);
      VerdictExactly(u, r, BadPaxRecord);
    }
    if TakeRecord(u, s) == Stop(p) && p != BadPaxRecord {
      var r := StopNames(u, s);
    }
    if p == BadPaxRecord && forall r: Record :: !Begins(s, r) {
      NoneTaken(u, s);
    }
  }

  lemma NoneTaken(u: Utf8, s: seq<Byte>)
    requires forall r: Record :: !Begins(s, r)
    ensures TakeRecord(u, s) == Stop(BadPaxRecord)
  {
    hide TakeRecord, Begins;
    var t := TakeRecord(u, s);
    if t.Took? {
      TookBegins(u, s);
      assert false;
    } else if t.error != BadPaxRecord {
      var r := StopNames(u, s);
      assert false;
    }
  }

  lemma TookBegins(u: Utf8, s: seq<Byte>)
    requires TakeRecord(u, s).Took?
    ensures Begins(s, TakeRecord(u, s).record)
  {
    hide TakeRecord, LegalKey, Text;
    TakeRecordSound(u, s);
  }

  /** A body is refused with an error exactly when it is legal records, and then something not empty that
      this error objects to. */
  lemma FailsExactly(u: Utf8, s: seq<Byte>, p: PaxError)
    ensures ParseFrom(u, s, map[]) == Failed(p)
       <==> exists rs: seq<Record>, rest: seq<Byte> :: AllLegal(u, rs) && s == Concat(rs) + rest && rest != [] && Objects(u, rest, p)
  {
    hide ParseFrom, Objects;
    if ParseFrom(u, s, map[]) == Failed(p) {
      var rs, rest := FailSound(u, s, map[], p);
    }
    if rs: seq<Record>, rest: seq<Byte> :| AllLegal(u, rs) && s == Concat(rs) + rest && rest != [] && Objects(u, rest, p) {
      FailComplete(u, rs, rest, map[], p);
    }
  }

  lemma {:induction false} FailSound(u: Utf8, s: seq<Byte>, out: map<string, string>, p: PaxError) returns (rs: seq<Record>, rest: seq<Byte>)
    requires ParseFrom(u, s, out) == Failed(p)
    ensures AllLegal(u, rs) && s == Concat(rs) + rest && rest != [] && Objects(u, rest, p)
    decreases |s|
  {
    hide TakeRecord, Objects, Legal, Text;
    StopExactly(u, s, p);
    if TakeRecord(u, s).Stop? {
      rs, rest := [], s;
    } else {
      var r := TakeRecord(u, s).record;
      TakeRecordSound(u, s);
      NotEmpty(r);
      var tail;
      tail, rest := FailSound(u, s[|Text(r)|..], out[u.decode(r.key) := u.decode(r.value)], p);
      rs := [r] + tail;
      assert rs[1..] == tail;
      assert s == Text(r) + s[|Text(r)|..];
    }
  }

  lemma {:induction false} FailComplete(u: Utf8, rs: seq<Record>, rest: seq<Byte>, out: map<string, string>, p: PaxError)
    requires AllLegal(u, rs) && rest != [] && Objects(u, rest, p)
    ensures ParseFrom(u, Concat(rs) + rest, out) == Failed(p)
    decreases |rs|
  {
    hide TakeRecord, Objects, Text;
    if rs == [] {
      assert [] + rest == rest;
      StopExactly(u, rest, p);
    } else {
      var r := rs[0];
      var tail := Concat(rs[1..]) + rest;
      assert Concat(rs) + rest == Text(r) + tail;
      TakeRecordComplete(u, r, tail);
      assert (Text(r) + tail)[|Text(r)|..] == tail;
      FailComplete(u, rs[1..], rest, out[u.decode(r.key) := u.decode(r.value)], p);
      assert Text(r) + tail != [] by { NotEmpty(r); }
    }
  }

  lemma NotEmpty(r: Record)
    ensures Text(r) != []
  {
  }

  /** A body has at most one reading. */
  lemma {:induction false} TilingUnique(u: Utf8, a: seq<Record>, b: seq<Record>)
    requires AllLegal(u, a) && AllLegal(u, b) && Concat(a) == Concat(b)
    ensures a == b
  {
    hide TakeRecord, Verdict, Text, LegalKey, SelfCounting;
    if a == [] || b == [] {
      ConcatEmpty(a);
      ConcatEmpty(b);
    } else {
      TakeRecordComplete(u, a[0], Concat(a[1..]));
      TakeRecordComplete(u, b[0], Concat(b[1..]));
      assert Concat(a)[|Text(a[0])|..] == Concat(a[1..]);
      assert Concat(b)[|Text(b[0])|..] == Concat(b[1..]);
      TilingUnique(u, a[1..], b[1..]);
      assert a == [a[0]] + a[1..] && b == [b[0]] + b[1..];
    }
  }

  // ---------------------------------------------------------------- the writer

  /** `_buildPaxRecord`: iterate the length until it counts its own digits. */
  method BuildPaxRecord(key: seq<Byte>, value: seq<Byte>) returns (r: Record)
    ensures SelfCounting(r) && r.key == key && r.value == value
    ensures r.digits == Decimal(|Text(r)|)
  {
    var body := |key| + 1 + |value| + 1;
    var len := body + 2;
    while true
      invariant body + 2 <= len <= 2 * body + 20
      invariant len <= |Decimal(len)| + 1 + body
      decreases 2 * body + 20 - len
    {
      var total := |Decimal(len)| + 1 + body;
      if total == len {
        r := Record(Decimal(len), key, value);
        DecimalRoundTrip(len);
        return;
      }
      DecimalLengthBound(len);
      DecimalLengthMono(len, total);
      len := total;
    }
  }

  /** Write then read: any number of records whose keys are legal and whose name values pass the
      name rules, written one after the other, read back as their last-wins map. */
  method WriteThenRead(u: Utf8, keys: seq<seq<Byte>>, values: seq<seq<Byte>>) returns (written: seq<Record>, r: Parsed)
    requires |keys| == |values|
    requires forall i :: 0 <= i < |keys| ==> LegalKey(keys[i]) && NameObjection(u, u.decode(keys[i]), values[i]) == []
    ensures |written| == |keys|
    ensures forall i :: 0 <= i < |keys| ==> written[i].key == keys[i] && written[i].value == values[i]
    ensures r == Parsed(LastWins(u, written, map[]))
  {
    written := [];
    for i := 0 to |keys|
      invariant |written| == i && AllLegal(u, written)
      invariant forall j :: 0 <= j < i ==> written[j].key == keys[j] && written[j].value == values[j]
    {
      var rec := BuildPaxRecord(keys[i], values[i]);
      written := written + [rec];
    }
    r := ParsePaxRecords(u, Concat(written));
    ParseComplete(u, written, map[]);
  }

  // ---------------------------------------------------------------- pax size

  /** `_paxSize` on the digits of the value: a canonical decimal that is a safe integer. */
  const MAX_SAFE := 0x1F_FFFF_FFFF_FFFF

  predicate DigitChars(s: string) {
    forall i :: 0 <= i < |s| ==> '0' <= s[i] <= '9'
  }

  function StringValue(s: string): nat
    requires DigitChars(s)
  {
    if s == "" then 0
    else
      assert '0' <= s[|s| - 1];
      StringValue(s[..|s| - 1]) * 10 + (s[|s| - 1] as int - '0' as int)
  }

  function NumberString(n: nat): (s: string)
    ensures s != "" && DigitChars(s)
  {
    if n < 10 then [('0' as int + n) as char] else NumberString(n / 10) + [('0' as int + n % 10) as char]
  }

  lemma {:induction false} NumberStringValue(n: nat)
    ensures StringValue(NumberString(n)) == n
  {
    if n < 10 {
      assert NumberString(n)[..0] == "";
    } else {
      NumberStringValue(n / 10);
      assert NumberString(n)[..|NumberString(n)| - 1] == NumberString(n / 10);
    }
  }

  datatype Size = Size(n: nat) | BadSize

  /** `_paxSize` */
  function PaxSize(raw: string): Size {
    if raw == "" || !DigitChars(raw) then BadSize
    else
      var n := StringValue(raw);
      if n > MAX_SAFE || NumberString(n) != raw then BadSize else Size(n)
  }

  /** `_paxSize` accepts exactly the canonical decimal strings of safe integers: no blanks, signs or
      leading zeros. */
  lemma PaxSizeExactly(raw: string, n: nat)
    ensures PaxSize(raw) == Size(n) <==> n <= 9007199254740991 && raw == NumberString(n)
  {
    NumberStringValue(n);
  }
}
