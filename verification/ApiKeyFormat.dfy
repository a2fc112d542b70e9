/** The token format of lib/api-key.js: prefix_namespace_idHex_secretHex. */
module ApiKeyFormat {
  import opened Results

  datatype Parts = Parts(prefix: string, namespace: string, idHex: string, secretHex: string)

  /** `token.split("_")` */
  function Split(s: string): (parts: seq<string>)
    ensures |parts| >= 1
  {
    if s == "" then [""]
    else
      var rest := Split(s[1..]);
      if s[0] == '_' then [""] + rest else [[s[0]] + rest[0]] + rest[1..]
  }

  function Join(parts: seq<string>): string
    requires |parts| >= 1
  {
    if |parts| == 1 then parts[0] else parts[0] + "_" + Join(parts[1..])
  }

  predicate IsHex(s: string) {
    s != "" && forall i :: 0 <= i < |s| ==> '0' <= s[i] <= '9' || 'a' <= s[i] <= 'f' || 'A' <= s[i] <= 'F'
  }

  /** `parseFormat` */
  function ParseFormat(token: string): Option<Parts> {
    if token == "" then None
    else
      var p := Split(token);
      if |p| != 4 || p[0] == "" || p[1] == "" || !IsHex(p[2]) || !IsHex(p[3]) then None
      else Some(Parts(p[0], p[1], p[2], p[3]))
  }

  /** `_composeKey` */
  function ComposeKey(p: Parts): string {
    p.prefix + "_" + p.namespace + "_" + p.idHex + "_" + p.secretHex
  }

  ghost predicate HexText(s: string) {
    s != "" && forall c :: c in s ==> c in "0123456789abcdefABCDEF"
  }

  /** What `_validateIdentifier` and the hex generators guarantee about the parts. */
  ghost predicate WellFormed(p: Parts) {
    && p.prefix != "" && '_' !in p.prefix
    && p.namespace != "" && '_' !in p.namespace
    && HexText(p.idHex) && HexText(p.secretHex)
  }

  lemma HexExactly(s: string)
    ensures IsHex(s) <==> HexText(s)
  {
    if HexText(s) {
      forall i | 0 <= i < |s|
        ensures '0' <= s[i] <= '9' || 'a' <= s[i] <= 'f' || 'A' <= s[i] <= 'F'
      {
        assert s[i] in s;
      }
    }
    if IsHex(s) {
      forall c | c in s
        ensures c in "0123456789abcdefABCDEF"
      {
        HexChar(c);
      }
    }
  }

  lemma HexChar(c: char)
    requires '0' <= c <= '9' || 'a' <= c <= 'f' || 'A' <= c <= 'F'
    ensures c in "0123456789abcdefABCDEF"
  {
    var all := "0123456789abcdefABCDEF";
    var i := if c <= '9' then c as int - '0' as int else if c >= 'a' then c as int - 'a' as int + 10 else c as int - 'A' as int + 16;
    assert all[i] == c;
  }

  lemma {:induction false} SplitHead(a: string, rest: string)
    requires '_' !in a
    ensures Split(a + "_" + rest) == [a] + Split(rest)
  {
    var s := a + "_" + rest;
    if a == "" {
      assert s[1..] == rest;
    } else {
      assert s[1..] == a[1..] + "_" + rest;
      SplitHead(a[1..], rest);
      assert [a[0]] + a[1..] == a;
    }
  }

  lemma {:induction false} SplitLast(a: string)
    requires '_' !in a
    ensures Split(a) == [a]
  {
    if a != "" {
      SplitLast(a[1..]);
      assert [a[0]] + a[1..] == a;
    }
  }

  lemma {:induction false} SplitJoin(s: string)
    ensures Join(Split(s)) == s
    ensures forall i :: 0 <= i < |Split(s)| ==> '_' !in Split(s)[i]
  {
    if s != "" {
      SplitJoin(s[1..]);
      var rest := Split(s[1..]);
      assert s == [s[0]] + s[1..];
      if s[0] == '_' {
        assert Split(s)[1..] == rest;
      } else {
        assert Split(s)[1..] == rest[1..];
        if |rest| > 1 {
          assert ([s[0]] + rest[0]) + "_" + Join(rest[1..]) == [s[0]] + (rest[0] + "_" + Join(rest[1..]));
        }
      }
    }
  }

  lemma JoinFour(a: string, b: string, c: string, d: string)
    ensures Join([a, b, c, d]) == a + "_" + b + "_" + c + "_" + d
  {
    assert [a, b, c, d][1..] == [b, c, d];
    assert [b, c, d][1..] == [c, d];
    assert [c, d][1..] == [d];
    assert Join([c, d]) == c + "_" + d;
    assert Join([b, c, d]) == b + "_" + (c + "_" + d);
    assert a + "_" + (b + "_" + (c + "_" + d)) == a + "_" + b + "_" + c + "_" + d;
  }

  /** A token parses to p exactly when it is the key composed from well-formed parts p. */
  lemma ParseExactly(token: string, p: Parts)
    ensures ParseFormat(token) == Some(p)
       <==> WellFormed(p) && token == p.prefix + "_" + p.namespace + "_" + p.idHex + "_" + p.secretHex
    ensures ComposeKey(p) == p.prefix + "_" + p.namespace + "_" + p.idHex + "_" + p.secretHex
  {
    HexExactly(p.idHex);
    HexExactly(p.secretHex);
    hide HexText;
    if WellFormed(p) && token == ComposeKey(p) {
      assert token == p.prefix + "_" + (p.namespace + "_" + (p.idHex + "_" + p.secretHex));
      HexHasNoUnderscore(p.idHex);
      HexHasNoUnderscore(p.secretHex);
      SplitHead(p.prefix, p.namespace + "_" + (p.idHex + "_" + p.secretHex));
      SplitHead(p.namespace, p.idHex + "_" + p.secretHex);
      SplitHead(p.idHex, p.secretHex);
      SplitLast(p.secretHex);
    }
    if ParseFormat(token) == Some(p) {
      SplitJoin(token);
      var q := Split(token);
      JoinFour(q[0], q[1], q[2], q[3]);
      assert q == [q[0], q[1], q[2], q[3]];
    }
  }

  lemma HexHasNoUnderscore(s: string)
    requires IsHex(s)
    ensures '_' !in s
  {
  }

  /** `_composedId` names one row per (namespace, id): the id has no colon. */
  function ComposedId(namespace: string, idHex: string): string {
    namespace + ":" + idHex
  }

  lemma ComposedIdInjective(n: string, i: string, m: string, j: string)
    requires IsHex(i) && IsHex(j) && ComposedId(n, i) == ComposedId(m, j)
    ensures n == m && i == j
  {
    var s := ComposedId(n, i);
    assert s[|n|] == ':' && s[|m|] == ':';
    if |n| < |m| { assert false; }
    if |m| < |n| { assert false; }
    assert n == s[..|n|] == m;
    assert i == s[|n| + 1..] == j;
  }
}
