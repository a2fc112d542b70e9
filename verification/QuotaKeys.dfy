/**
 Counter keys and limits of lib/ai-quota.js. Identifiers are strings of Unicode scalar values;
 `encodeURIComponent` is that of ECMA-262 (section 19.2.6) over UTF-8.
 */
module QuotaKeys {
  import opened Bytes
  import opened Results
  import Calendar

  // ---------------------------------------------------------------- percent-encoding

  predicate Unescaped(c: char) {
    'A' <= c <= 'Z' || 'a' <= c <= 'z' || '0' <= c <= '9' || c in "-_.!~*'()"
  }

  function HexDigit(n: nat): (c: char)
    requires n < 16
    ensures '0' <= c <= '9' || 'A' <= c <= 'F'
  {
    if n < 10 then (n + '0' as int) as char else (n - 10 + 'A' as int) as char
  }

  function HexValue(c: char): (n: Option<nat>)
    ensures n.Some? ==> n.value < 16
  {
    if '0' <= c <= '9' then Some(c as int - '0' as int)
    else if 'A' <= c <= 'F' then Some(c as int - 'A' as int + 10)
    else if 'a' <= c <= 'f' then Some(c as int - 'a' as int + 10)
    else None
  }

  /** UTF-8 of a code point. */
  function Utf8(v: nat): (bytes: seq<Byte>)
    requires v < 0x110000
    ensures 1 <= |bytes| <= 4
  {
    if v < 0x80 then [v]
    else if v < 0x800 then [0xC0 + v / 64, 0x80 + v % 64]
    else if v < 0x10000 then [0xE0 + v / 4096, 0x80 + v / 64 % 64, 0x80 + v % 64]
    else [0xF0 + v / 262144, 0x80 + v / 4096 % 64, 0x80 + v / 64 % 64, 0x80 + v % 64]
  }

  function Escape(bytes: seq<Byte>): string {
    if bytes == [] then "" else ['%', HexDigit(bytes[0] / 16), HexDigit(bytes[0] % 16)] + Escape(bytes[1..])
  }

  function EncodeChar(c: char): string {
    if Unescaped(c) then [c] else Escape(Utf8(c as int))
  }

  /** `encodeURIComponent` */
  function Encode(s: string): string {
    if s == "" then "" else EncodeChar(s[0]) + Encode(s[1..])
  }

  /** One `%XX` escape. */
  function Octet(s: string): Option<Byte> {
    if |s| >= 3 && s[0] == '%' && HexValue(s[1]).Some? && HexValue(s[2]).Some?
    then Some(HexValue(s[1]).value * 16 + HexValue(s[2]).value)
    else None
  }

  function Octets(s: string, n: nat): (bytes: Option<seq<Byte>>)
    ensures bytes.Some? ==> |bytes.value| == n && 3 * n <= |s|
  {
    if n == 0 then Some([])
    else if Octet(s).None? then None
    else
      var rest := Octets(s[3..], n - 1);
      if rest.None? then None else Some([Octet(s).value] + rest.value)
  }

  /** How many octets a leading octet announces. */
  function LeadLength(b: Byte): (n: nat)
    ensures n <= 4
  {
    if b < 0x80 then 1 else if b < 0xC0 then 0 else if b < 0xE0 then 2 else if b < 0xF0 then 3 else if b < 0xF8 then 4 else 0
  }

  function CodePoint(bytes: seq<int>): int
    requires 1 <= |bytes| <= 4
  {
    if |bytes| == 1 then bytes[0]
    else if |bytes| == 2 then (bytes[0] - 0xC0) * 64 + (bytes[1] - 0x80)
    else if |bytes| == 3 then (bytes[0] - 0xE0) * 4096 + (bytes[1] - 0x80) * 64 + (bytes[2] - 0x80)
    else (bytes[0] - 0xF0) * 262144 + (bytes[1] - 0x80) * 4096 + (bytes[2] - 0x80) * 64 + (bytes[3] - 0x80)
  }

  /** The character that octets are the shortest UTF-8 form of. */
  function FromUtf8(bytes: seq<Byte>): Option<char>
    requires 1 <= |bytes| <= 4
  {
    var v := CodePoint(bytes);
    if 0 <= v < 0xD800 || 0xE000 <= v < 0x110000 then
      if Utf8(v) == bytes then Some(v as char) else None
    else None
  }

  /** `decodeURIComponent`, the inverse. */
  function Decode(s: string): Option<string>
    decreases |s|
  {
    if s == "" then Some("")
    else if s[0] != '%' then
      var rest := Decode(s[1..]);
      if rest.None? then None else Some([s[0]] + rest.value)
    else if Octet(s).None? || LeadLength(Octet(s).value) == 0 then None
    else
      var n := LeadLength(Octet(s).value);
      var bytes := Octets(s, n);
      if bytes.None? || FromUtf8(bytes.value).None? then None
      else
        var rest := Decode(s[3 * n..]);
        if rest.None? then None else Some([FromUtf8(bytes.value).value] + rest.value)
  }

  lemma HexRoundTrip(b: Byte, rest: string)
    ensures Octet(['%', HexDigit(b / 16), HexDigit(b % 16)] + rest) == Some(b)
  {
  }

  lemma {:induction false} EscapeRoundTrip(bytes: seq<Byte>, rest: string)
    ensures |Escape(bytes)| == 3 * |bytes|
    ensures Octets(Escape(bytes) + rest, |bytes|) == Some(bytes)
  {
    if bytes != [] {
      var s := Escape(bytes) + rest;
      assert s == ['%', HexDigit(bytes[0] / 16), HexDigit(bytes[0] % 16)] + (Escape(bytes[1..]) + rest);
      HexRoundTrip(bytes[0], Escape(bytes[1..]) + rest);
      EscapeRoundTrip(bytes[1..], rest);
      assert s[3..] == Escape(bytes[1..]) + rest;
      assert [bytes[0]] + bytes[1..] == bytes;
    }
  }

  lemma CodePointOfUtf8(v: nat)
    requires v < 0x110000
    ensures CodePoint(Utf8(v)) == v
  {
    assert v / 64 == v / 64 / 64 * 64 + v / 64 % 64;
    assert v / 4096 == v / 4096 / 64 * 64 + v / 4096 % 64;
    assert v / 64 / 64 == v / 4096 && v / 4096 / 64 == v / 262144;
  }

  lemma Utf8RoundTrip(c: char)
    ensures var bytes := Utf8(c as int); LeadLength(bytes[0]) == |bytes| && FromUtf8(bytes) == Some(c)
  {
    CodePointOfUtf8(c as int);
  }

  /** What encoding keeps: letters, digits and the marks of section 19.2.6.5 of ECMA-262; everything else
      becomes one escape for each of its one to four octets. */
  lemma EncodesExactly(c: char)
    ensures EncodeChar(c) == [c]
       <==> 'A' <= c <= 'Z' || 'a' <= c <= 'z' || '0' <= c <= '9'
            || c == '-' || c == '_' || c == '.' || c == '!' || c == '~' || c == '*' || c == '\'' || c == '(' || c == ')'
    ensures EncodeChar(c) != [c] ==>
              |EncodeChar(c)| == 3 * (if c as int < 0x80 then 1 else if c as int < 0x800 then 2 else if c as int < 0x10000 then 3 else 4)
              && EncodeChar(c)[0] == '%'
    ensures c as int < 0x80 && EncodeChar(c) != [c] ==>
              EncodeChar(c) == ['%', HexDigit(c as int / 16), HexDigit(c as int % 16)]
  {
    var u := Utf8(c as int);
    EscapeRoundTrip(u, "");
    if c as int < 0x80 { assert u[1..] == [] && Escape([]) == ""; }
  }

  /** Percent-encoding loses nothing. */
  lemma {:induction false} DecodeEncode(s: string)
    ensures Decode(Encode(s)) == Some(s)
  {
    if s != "" {
      DecodeEncode(s[1..]);
      var c, rest := s[0], Encode(s[1..]);
      var t := Encode(s);
      assert s == [c] + s[1..];
      if Unescaped(c) {
        assert t[1..] == rest;
      } else {
        var bytes := Utf8(c as int);
        EscapeRoundTrip(bytes, rest);
        Utf8RoundTrip(c);
        assert t[0] == '%';
        assert t[3 * |bytes|..] == rest;
        assert Octet(t) == Some(bytes[0]);
      }
    }
  }

  lemma {:induction false} EscapeHasNoColon(bytes: seq<Byte>)
    ensures ':' !in Escape(bytes)
  {
    if bytes != [] { EscapeHasNoColon(bytes[1..]); }
  }

  lemma {:induction false} EncodeHasNoColon(s: string)
    ensures ':' !in Encode(s)
  {
    if s != "" {
      EscapeHasNoColon(Utf8(s[0] as int));
      EncodeHasNoColon(s[1..]);
    }
  }

  // ---------------------------------------------------------------- keys

  function PeriodName(p: Calendar.Period): string {
    match p
    case Second => "second"
    case Minute => "minute"
    case Hour => "hour"
    case OneDay => "day"
    case Week => "week"
    case Month => "month"
  }

  function Digits(n: nat): (s: string)
    ensures |s| > 0 && s[0] != '-'
  {
    var d := Decimal(n);
    assert IsDigit(d[0]);
    seq(|d|, i requires 0 <= i < |d| => d[i] as char)
  }

  /** An instant as text; weeks may begin before 1970. */
  function InstantText(n: int): string {
    if n < 0 then "-" + Digits(-n) else Digits(n)
  }

  /** `_keyPrefixForTenant` */
  function KeyPrefix(dimension: string, p: Calendar.Period, tenant: string): string {
    "aiq:" + dimension + ":" + PeriodName(p) + ":" + Encode(tenant) + ":"
  }

  /** `_keyFor` */
  function KeyFor(dimension: string, p: Calendar.Period, tenant: string, model: string, windowStart: int): string {
    "aiq:" + dimension + ":" + PeriodName(p) + ":" + Encode(tenant) + ":" + Encode(model) + ":" + InstantText(windowStart)
  }

  lemma DigitsInjective(a: nat, b: nat)
    requires Digits(a) == Digits(b)
    ensures a == b
  {
    var x, y := Decimal(a), Decimal(b);
    assert |Digits(a)| == |x| && |Digits(b)| == |y|;
    forall i | 0 <= i < |x|
      ensures x[i] == y[i]
    {
      assert Digits(a)[i] == x[i] as char && Digits(b)[i] == y[i] as char;
    }
    assert x == y;
    DecimalRoundTrip(a);
    DecimalRoundTrip(b);
  }

  lemma InstantTextInjective(a: int, b: int)
    requires InstantText(a) == InstantText(b)
    ensures a == b
  {
    if a < 0 && b < 0 {
      assert InstantText(a)[1..] == Digits(-a) && InstantText(b)[1..] == Digits(-b);
      DigitsInjective(-a, -b);
    } else if a >= 0 && b >= 0 {
      DigitsInjective(a, b);
    }
  }

  /** The text before the first colon is determined. */
  lemma ColonSplits(a: string, x: string, b: string, y: string)
    requires ':' !in a && ':' !in b && a + ":" + x == b + ":" + y
    ensures a == b && x == y
  {
    var s := a + ":" + x;
    assert s[|a|] == ':' && s[|b|] == ':';
    if |a| < |b| { assert false; }
    if |b| < |a| { assert false; }
    assert a == s[..|a|] == b;
    assert x == s[|a| + 1..] == y;
  }

  lemma EncodeInjective(s: string, t: string)
    requires Encode(s) == Encode(t)
    ensures s == t
  {
    DecodeEncode(s);
    DecodeEncode(t);
  }

  function Tail(tenant: string, model: string, w: int): string {
    Encode(tenant) + ":" + (Encode(model) + ":" + InstantText(w))
  }

  lemma TailInjective(t: string, m: string, w: int, t2: string, m2: string, w2: int)
    requires Tail(t, m, w) == Tail(t2, m2, w2)
    ensures t == t2 && m == m2 && w == w2
  {
    EncodeHasNoColon(t);
    EncodeHasNoColon(t2);
    EncodeHasNoColon(m);
    EncodeHasNoColon(m2);
    ColonSplits(Encode(t), Encode(m) + ":" + InstantText(w), Encode(t2), Encode(m2) + ":" + InstantText(w2));
    ColonSplits(Encode(m), InstantText(w), Encode(m2), InstantText(w2));
    EncodeInjective(t, t2);
    EncodeInjective(m, m2);
    InstantTextInjective(w, w2);
  }

  lemma KeyShape(d: string, p: Calendar.Period, t: string, m: string, w: int)
    ensures KeyFor(d, p, t, m, w) == "aiq:" + (d + ":" + (PeriodName(p) + ":" + Tail(t, m, w)))
  {
    hide Encode, InstantText;
  }

  /** Two counters share a key only if they are the same counter, whatever characters the tenant and
      model names hold. */
  lemma KeyInjective(d: string, p: Calendar.Period, t: string, m: string, w: int,
                     d2: string, p2: Calendar.Period, t2: string, m2: string, w2: int)
    requires ':' !in d && ':' !in d2
    ensures KeyFor(d, p, t, m, w) == KeyFor(d2, p2, t2, m2, w2)
            <==> d == d2 && p == p2 && t == t2 && m == m2 && w == w2
  {
    hide Encode, InstantText, Tail;
    if KeyFor(d, p, t, m, w) == KeyFor(d2, p2, t2, m2, w2) {
      KeyShape(d, p, t, m, w);
      KeyShape(d2, p2, t2, m2, w2);
      var x, y := d + ":" + (PeriodName(p) + ":" + Tail(t, m, w)), d2 + ":" + (PeriodName(p2) + ":" + Tail(t2, m2, w2));
      assert ("aiq:" + x)[4..] == x && ("aiq:" + y)[4..] == y;
      assert x == y;
      ColonSplits(d, PeriodName(p) + ":" + Tail(t, m, w), d2, PeriodName(p2) + ":" + Tail(t2, m2, w2));
      ColonSplits(PeriodName(p), Tail(t, m, w), PeriodName(p2), Tail(t2, m2, w2));
      PeriodNameInjective(p, p2);
      TailInjective(t, m, w, t2, m2, w2);
    }
  }

  /** Within one dimension and period no assumption on the names is needed. */
  lemma KeySameDimension(d: string, p: Calendar.Period, t: string, m: string, w: int, t2: string, m2: string, w2: int)
    ensures KeyFor(d, p, t, m, w) == KeyFor(d, p, t2, m2, w2) <==> t == t2 && m == m2 && w == w2
  {
    hide Encode, InstantText, PeriodName, Tail;
    if KeyFor(d, p, t, m, w) == KeyFor(d, p, t2, m2, w2) {
      KeyShape(d, p, t, m, w);
      KeyShape(d, p, t2, m2, w2);
      var head := "aiq:" + d + ":" + PeriodName(p) + ":";
      assert KeyFor(d, p, t, m, w) == head + Tail(t, m, w);
      assert KeyFor(d, p, t2, m2, w2) == head + Tail(t2, m2, w2);
      assert (head + Tail(t, m, w))[|head|..] == Tail(t, m, w);
      assert (head + Tail(t2, m2, w2))[|head|..] == Tail(t2, m2, w2);
      TailInjective(t, m, w, t2, m2, w2);
    }
  }

  lemma PeriodNameInjective(p: Calendar.Period, q: Calendar.Period)
    requires PeriodName(p) == PeriodName(q)
    ensures p == q
  {
    assert PeriodName(p)[0] == PeriodName(q)[0];
    assert |PeriodName(p)| == |PeriodName(q)|;
  }

  /** The prefix deletion of a tenant reaches that tenant's counters and no others. */
  lemma PrefixExactly(d: string, p: Calendar.Period, t: string, t2: string, m: string, w: int)
    ensures KeyPrefix(d, p, t) <= KeyFor(d, p, t2, m, w) <==> t == t2
  {
    hide Encode, InstantText, PeriodName;
    var head := "aiq:" + d + ":" + PeriodName(p) + ":";
    var rest := Encode(m) + ":" + InstantText(w);
    var key := KeyFor(d, p, t2, m, w);
    assert key == head + (Encode(t2) + ":" + rest);
    assert KeyPrefix(d, p, t) == head + (Encode(t) + ":");
    if t == t2 {
      assert key == KeyPrefix(d, p, t) + rest;
    } else if KeyPrefix(d, p, t) <= key {
      var more := key[|KeyPrefix(d, p, t)|..];
      assert key == KeyPrefix(d, p, t) + more;
      assert key[|head|..] == Encode(t2) + ":" + rest;
      assert key[|head|..] == Encode(t) + ":" + more;
      EncodeHasNoColon(t);
      EncodeHasNoColon(t2);
      ColonSplits(Encode(t2), rest, Encode(t), more);
      EncodeInjective(t2, t);
    }
  }

  // ---------------------------------------------------------------- limits

  datatype Limits = Limits(limit: real, perTenant: map<string, real>, perModel: map<string, real>, perTenantModel: map<string, real>)

  function PairKey(tenant: string, model: string): string {
    tenant + "|" + model
  }

  /** `_limitFor` */
  function LimitFor(l: Limits, tenant: string, model: string): real {
    if PairKey(tenant, model) in l.perTenantModel then l.perTenantModel[PairKey(tenant, model)]
    else if tenant in l.perTenant then l.perTenant[tenant]
    else if model in l.perModel then l.perModel[model]
    else l.limit
  }

  /** How far an override reaches: one for a pair of names decides for every call with that entry; one for
      a tenant for that tenant's calls without a pair override; one for a model for that model's calls
      without either; the general limit for all the rest. */
  lemma OverridesReachExactly(l: Limits, tenant: string, model: string, name: string, x: real)
    ensures LimitFor(l.(perTenantModel := l.perTenantModel[name := x]), tenant, model)
         == if tenant + "|" + model == name then x else LimitFor(l, tenant, model)
    ensures LimitFor(l.(perTenant := l.perTenant[name := x]), tenant, model)
         == if tenant == name && tenant + "|" + model !in l.perTenantModel then x else LimitFor(l, tenant, model)
    ensures LimitFor(l.(perModel := l.perModel[name := x]), tenant, model)
         == if model == name && tenant + "|" + model !in l.perTenantModel && tenant !in l.perTenant then x else LimitFor(l, tenant, model)
    ensures LimitFor(Limits(x, map[], map[], map[]), tenant, model) == x
  {
  }

  /** Some other pair that a call may name reads the same override entry. */
  ghost predicate Shares(tenant: string, model: string) {
    exists t: string, m: string ::
      t != "" && m != "" && (t, m) != (tenant, model) && PairKey(t, m) == PairKey(tenant, model)
  }

  /** Unlike the counters, the overrides are not encoded. A pair shares its override entry with another
      pair of non-empty names exactly when the tenant name has a bar after its first character or the
      model name has one before its last. */
  lemma OverrideAmbiguousExactly(tenant: string, model: string)
    requires tenant != "" && model != ""
    ensures Shares(tenant, model) <==>
            (exists k :: 0 < k < |tenant| && tenant[k] == '|') || (exists k :: 0 <= k < |model| - 1 && model[k] == '|')
  {
    if Shares(tenant, model) {
      var t: string, m: string :|
        t != "" && m != "" && (t, m) != (tenant, model) && PairKey(t, m) == PairKey(tenant, model);
      SharingNeedsBar(tenant, model, t, m);
    }
    if k :| 0 < k < |tenant| && tenant[k] == '|' {
      var t, m := tenant[..k], tenant[k + 1..] + "|" + model;
      assert tenant == t + "|" + tenant[k + 1..];
      assert PairKey(t, m) == PairKey(tenant, model);
    }
    if k :| 0 <= k < |model| - 1 && model[k] == '|' {
      var t, m := tenant + "|" + model[..k], model[k + 1..];
      assert model == model[..k] + "|" + m;
      assert PairKey(t, m) == PairKey(tenant, model);
      assert |t| > |tenant|;
    }
  }

  lemma SharingNeedsBar(tenant: string, model: string, t: string, m: string)
    requires t != "" && m != "" && (t, m) != (tenant, model) && PairKey(t, m) == PairKey(tenant, model)
    ensures (exists k :: 0 < k < |tenant| && tenant[k] == '|') || (exists k :: 0 <= k < |model| - 1 && model[k] == '|')
  {
    var s := PairKey(tenant, model);
    assert s[|t|] == '|';
    if |t| < |tenant| {
      assert tenant[|t|] == '|';
    } else if |t| > |tenant| {
      assert model[|t| - |tenant| - 1] == '|';
    } else {
      SamePair(tenant, model, t, m);
    }
  }

  lemma SamePair(tenant: string, model: string, t: string, m: string)
    requires PairKey(t, m) == PairKey(tenant, model) && |t| == |tenant|
    ensures t == tenant && m == model
  {
    var s := PairKey(tenant, model);
    assert t == s[..|t|] == tenant;
    assert m == s[|t| + 1..] == model;
  }

  /** An override written for tenant "a|b" and model "c" is the limit of tenant "a" and model "b|c". */
  lemma OverrideReachesOtherTenant(l: Limits, limit: real)
    requires l.perTenantModel == map[PairKey("a|b", "c") := limit]
    ensures LimitFor(l, "a|b", "c") == limit && LimitFor(l, "a", "b|c") == limit && LimitFor(l, "a", "c") == LimitFor(l.(perTenantModel := map[]), "a", "c")
  {
    assert PairKey("a", "b|c") == PairKey("a|b", "c");
    assert |PairKey("a", "c")| == 3 && |PairKey("a|b", "c")| == 5;
  }
}
