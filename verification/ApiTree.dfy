/**
 The tree of an API snapshot (lib/api-snapshot.js). Members are a list, in the order in which the
 language enumerates their keys; keys are compared character by character.
 */
module ApiTree {
  import opened Results

  datatype Member = Member(key: string, node: Node)

  datatype Node =
    | Primitive(valueType: string)
    | Callable(arity: nat)
    | Instance(ctorName: string)
    | Object(members: seq<Member>)
    | Cycle
    | Deep

  type Path = seq<string>

  /** The node's `type` field. */
  function Kind(n: Node): string {
    match n
    case Primitive(_) => "primitive"
    case Callable(_) => "function"
    case Instance(_) => "instance"
    case Object(_) => "object"
    case Cycle => "cycle"
    case Deep => "deep"
  }

  /** Two nodes are of one type exactly when they are alike built; the type's name is as written. */
  lemma KindsExactly(x: Node, y: Node)
    ensures Kind(x) == Kind(y)
       <==> || (x.Primitive? && y.Primitive?) || (x.Callable? && y.Callable?) || (x.Instance? && y.Instance?)
            || (x.Object? && y.Object?) || (x.Cycle? && y.Cycle?) || (x.Deep? && y.Deep?)
    ensures (Kind(x) == "primitive" <==> x.Primitive?) && (Kind(x) == "function" <==> x.Callable?) && (Kind(x) == "instance" <==> x.Instance?)
    ensures (Kind(x) == "object" <==> x.Object?) && (Kind(x) == "cycle" <==> x.Cycle?) && (Kind(x) == "deep" <==> x.Deep?)
  {
    assert |"primitive"| == 9 && |"function"| == 8 && |"instance"| == 8 && |"object"| == 6 && |"cycle"| == 5 && |"deep"| == 4;
    assert "function"[0] == 'f' && "instance"[0] == 'i';
  }

  /** What a node says besides its members. */
  function Label(n: Node): Node {
    if n.Object? then Object([]) else n
  }

  function Find(ms: seq<Member>, key: string): Option<Node> {
    if ms == [] then None else if ms[0].key == key then Some(ms[0].node) else Find(ms[1..], key)
  }

  /** The node at a path of member names. */
  function Lookup(n: Node, path: Path): Option<Node>
    decreases |path|
  {
    if path == [] then Some(n)
    else if !n.Object? || Find(n.members, path[0]).None? then None
    else Lookup(Find(n.members, path[0]).value, path[1..])
  }

  lemma {:induction false} FindAt(ms: seq<Member>, i: nat)
    requires i < |ms| && Distinct(ms)
    ensures Find(ms, ms[i].key) == Some(ms[i].node)
  {
    if i > 0 {
      assert ms[0].key != ms[i].key;
      assert ms[1..][i - 1] == ms[i];
      FindAt(ms[1..], i - 1);
    }
  }

  lemma {:induction false} FoundAt(ms: seq<Member>, key: string) returns (i: nat)
    requires Find(ms, key).Some?
    ensures i < |ms| && ms[i] == Member(key, Find(ms, key).value)
  {
    if ms[0].key == key {
      i := 0;
    } else {
      i := FoundAt(ms[1..], key);
      i := i + 1;
    }
  }

  lemma {:induction false} FindNone(ms: seq<Member>, key: string)
    ensures Find(ms, key).None? <==> forall i :: 0 <= i < |ms| ==> ms[i].key != key
  {
    if ms != [] {
      FindNone(ms[1..], key);
      assert forall i :: 1 <= i < |ms| ==> ms[i] == ms[1..][i - 1];
      if Find(ms, key).None? {
        forall i | 0 <= i < |ms| ensures ms[i].key != key {
          if i > 0 { assert ms[1..][i - 1].key != key; }
        }
      } else if ms[0].key != key {
        var j := FoundAt(ms, key);
        assert ms[j].key == key;
      }
    }
  }

  /** Keys of one object are distinct. */
  predicate Distinct(ms: seq<Member>) {
    forall i, j :: 0 <= i < j < |ms| ==> ms[i].key != ms[j].key
  }

  ghost predicate WellFormed(n: Node) {
    n.Object? ==> Distinct(n.members) && forall i :: 0 <= i < |n.members| ==> WellFormed(n.members[i].node)
  }

  lemma FindWellFormed(n: Node, key: string)
    requires n.Object? && WellFormed(n) && Find(n.members, key).Some?
    ensures WellFormed(Find(n.members, key).value)
  {
    var i := FoundAt(n.members, key);
    assert WellFormed(n.members[i].node);
  }

  /** Looking up a path in two parts. */
  lemma {:induction false} LookupSplit(n: Node, p: Path, q: Path)
    ensures Lookup(n, p + q) == if Lookup(n, p).None? then None else Lookup(Lookup(n, p).value, q)
    decreases |p|
  {
    if p == [] {
      assert p + q == q;
    } else {
      assert (p + q)[0] == p[0] && (p + q)[1..] == p[1..] + q;
      if n.Object? && Find(n.members, p[0]).Some? {
        LookupSplit(Find(n.members, p[0]).value, p[1..], q);
      }
    }
  }

  // ---------------------------------------------------------------- sorted trees

  /** Strict order of keys. */
  predicate Less(a: string, b: string) {
    b != "" && (a == "" || a[0] < b[0] || (a[0] == b[0] && Less(a[1..], b[1..])))
  }

  lemma {:induction false} LessTotal(a: string, b: string)
    ensures Less(a, b) || Less(b, a) || a == b
    ensures !(Less(a, b) && Less(b, a)) && !Less(a, a)
  {
    if a != "" && b != "" {
      LessTotal(a[1..], b[1..]);
      LessTotal(a[1..], a[1..]);
      assert a == [a[0]] + a[1..] && b == [b[0]] + b[1..];
    } else if a != "" {
      LessTotal(a[1..], a[1..]);
    }
  }

  lemma {:induction false} LessTransitive(a: string, b: string, c: string)
    requires Less(a, b) && Less(b, c)
    ensures Less(a, c)
  {
    if a != "" && a[0] == b[0] && b[0] == c[0] { LessTransitive(a[1..], b[1..], c[1..]); }
  }

  /** An array index, 0 to 2^32 - 2, written without leading zeros. */
  predicate IsIndex(s: string) {
    s == "0" ||
    (s != "" && '1' <= s[0] <= '9' && (forall i :: 0 <= i < |s| ==> '0' <= s[i] <= '9')
     && (|s| < 10 || (|s| == 10 && Less(s, "4294967295"))))
  }

  /** The order in which the language enumerates keys added in code order: array indices first, in
      numeric order (without leading zeros that is by length, then by digits), then the others. */
  predicate Before(a: string, b: string) {
    if IsIndex(a) && IsIndex(b) then |a| < |b| || (|a| == |b| && Less(a, b))
    else IsIndex(a) || (!IsIndex(b) && Less(a, b))
  }

  /** One text is less than another exactly when it is a proper beginning of it, or has the smaller
      character where they first differ. */
  lemma {:induction false} LessExactly(a: string, b: string)
    ensures Less(a, b)
       <==> exists i: nat :: i < |b| && i <= |a| && a[..i] == b[..i] && (i == |a| || a[i] < b[i])
  {
    if b != "" && a != "" {
      LessExactly(a[1..], b[1..]);
      forall i: nat | 0 < i <= |a| && i <= |b| && a[..i] == b[..i]
        ensures a[0] == b[0]
      {
        assert a[..i][0] == b[..i][0];
      }
      if a[0] == b[0] {
        if i: nat :| i < |b| && i <= |a| && a[..i] == b[..i] && (i == |a| || a[i] < b[i]) {
          assert i > 0;
          assert a[1..][..i - 1] == a[..i][1..] && b[1..][..i - 1] == b[..i][1..];
        }
        if i: nat :| i < |b[1..]| && i <= |a[1..]| && a[1..][..i] == b[1..][..i] && (i == |a[1..]| || a[1..][i] < b[1..][i]) {
          assert a[..i + 1] == [a[0]] + a[1..][..i] && b[..i + 1] == [b[0]] + b[1..][..i];
        }
      } else {
        assert a[..0] == b[..0];
      }
    } else if b != "" {
      assert a[..0] == b[..0];
    }
  }

  // ---------------------------------------------------------------- array indices as numbers

  ghost predicate Digits(s: string) {
    forall i :: 0 <= i < |s| ==> '0' <= s[i] <= '9'
  }

  ghost function Ten(n: nat): nat {
    if n == 0 then 1 else 10 * Ten(n - 1)
  }

  /** The number that digits spell. */
  ghost function ValueOf(s: string): nat
    requires Digits(s)
  {
    if s == "" then 0 else (s[0] as int - '0' as int) * Ten(|s| - 1) + ValueOf(s[1..])
  }

  lemma Scaled(d: nat, e: nat, t: nat)
    requires d < e
    ensures d * t + t <= e * t
  {
    assert e * t == d * t + t + (e - d - 1) * t;
  }

  lemma ValueStep(s: string)
    requires s != "" && Digits(s)
    ensures Digits(s[1..]) && '0' <= s[0] <= '9' && Ten(|s|) == 10 * Ten(|s| - 1)
    ensures ValueOf(s) == (s[0] as int - '0' as int) * Ten(|s| - 1) + ValueOf(s[1..])
  {
  }

  /** A numeral of this many digits, the first one not zero. */
  lemma {:induction false} ValueRange(s: string)
    requires Digits(s)
    ensures ValueOf(s) < Ten(|s|)
    ensures s != "" && s[0] != '0' ==> ValueOf(s) >= Ten(|s| - 1)
  {
    if s != "" {
      ValueStep(s);
      ValueRange(s[1..]);
      hide Digits, Ten, ValueOf;
      var d, t := s[0] as int - '0' as int, Ten(|s| - 1);
      Scaled(d, 10, t);
      if d > 0 { Scaled(0, d, t); }
    }
  }

  lemma {:induction false} SameLengthByValue(a: string, b: string)
    requires Digits(a) && Digits(b) && |a| == |b|
    ensures Less(a, b) <==> ValueOf(a) < ValueOf(b)
  {
    if a != "" {
      ValueStep(a);
      ValueStep(b);
      SameLengthByValue(a[1..], b[1..]);
      ValueRange(a[1..]);
      ValueRange(b[1..]);
      LessStep(a, b);
      hide Digits, Ten, ValueOf, Less;
      var d, e, t := a[0] as int - '0' as int, b[0] as int - '0' as int, Ten(|a| - 1);
      if d < e { Scaled(d, e, t); }
      if e < d { Scaled(e, d, t); }
    }
  }

  lemma LessStep(a: string, b: string)
    requires a != "" && b != ""
    ensures Less(a, b) <==> a[0] < b[0] || (a[0] == b[0] && Less(a[1..], b[1..]))
  {
  }

  lemma {:induction false} TenGrows(m: nat, n: nat)
    requires m <= n
    ensures Ten(m) <= Ten(n)
  {
    if m < n { TenGrows(m, n - 1); }
  }

  lemma ShorterIsLess(a: string, b: string)
    requires Digits(a) && Digits(b) && |a| < |b| && b[0] != '0'
    ensures ValueOf(a) < ValueOf(b)
  {
    ValueRange(a);
    ValueRange(b);
    TenGrows(|a|, |b| - 1);
  }

  lemma FromDigit(s: string, k: nat, v: nat, t: nat)
    requires k < |s| && Digits(s) && Digits(s[k + 1..]) && ValueOf(s[k + 1..]) == v && Ten(|s| - k - 1) == t
    ensures Digits(s[k..]) && ValueOf(s[k..]) == (s[k] as int - '0' as int) * t + v && Ten(|s| - k) == 10 * t
  {
    assert s[k..][1..] == s[k + 1..];
    assert forall i :: 0 <= i < |s[k..]| ==> s[k..][i] == s[k + i];
    ValueStep(s[k..]);
  }

  lemma NoDigits(s: string)
    requires |s| == 10
    ensures Digits(s[10..]) && ValueOf(s[10..]) == 0 && Ten(0) == 1 && s[0..] == s
  {
  }

  /** The least numeral that is too large for an index. */
  ghost predicate IsTop(s: string) {
    |s| == 10 && s[..5] == "42949" && s[5..] == "67295"
  }

  lemma TopChars(s: string)
    requires IsTop(s)
    ensures |s| == 10 && s[0] == '4' && s[1] == '2' && s[2] == '9' && s[3] == '4' && s[4] == '9'
    ensures s[5] == '6' && s[6] == '7' && s[7] == '2' && s[8] == '9' && s[9] == '5' && Digits(s)
  {
    var a, b := s[..5], s[5..];
    assert s[0] == a[0] && s[1] == a[1] && s[2] == a[2] && s[3] == a[3] && s[4] == a[4];
    assert s[5] == b[0] && s[6] == b[1] && s[7] == b[2] && s[8] == b[3] && s[9] == b[4];
  }

  lemma TopIndex(s: string)
    requires IsTop(s)
    ensures Digits(s) && ValueOf(s) == 4294967295
  {
    TopChars(s);
    NoDigits(s);
    hide *;
    FromDigit(s, 9, 0, 1);
    FromDigit(s, 8, 5, 10);
    FromDigit(s, 7, 95, 100);
    FromDigit(s, 6, 295, 1000);
    FromDigit(s, 5, 7295, 10000);
    FromDigit(s, 4, 67295, 100000);
    FromDigit(s, 3, 967295, 1000000);
    FromDigit(s, 2, 4967295, 10000000);
    FromDigit(s, 1, 94967295, 100000000);
    FromDigit(s, 0, 294967295, 1000000000);
  }

  lemma IndexShape(s: string, top: string)
    requires IsTop(top)
    ensures IsIndex(s) <==> s == "0" || (s != "" && Digits(s) && s[0] != '0' && (|s| < 10 || (|s| == 10 && Less(s, top))))
  {
    hide Less;
    assert top == top[..5] + top[5..] == "4294967295";
  }

  lemma IndexBelow(s: string, top: string)
    requires IsTop(top)
    ensures IsIndex(s) <==> s != "" && Digits(s) && (s[0] == '0' ==> |s| == 1) && ValueOf(s) < 4294967295
  {
    IndexShape(s, top);
    TopIndex(top);
    TopChars(top);
    hide IsIndex, Less, IsTop, Ten;
    if s != "" && Digits(s) {
      hide ValueOf;
      if |s| < 10 {
        ShorterIsLess(s, top);
      } else if |s| == 10 {
        SameLengthByValue(s, top);
      } else if s[0] != '0' {
        ShorterIsLess(top, s);
      }
    }
  }

  /** The array indices are the numerals without leading zeros of the numbers up to 2^32 - 2. */
  lemma IndexExactly(s: string)
    ensures IsIndex(s) <==> s != "" && Digits(s) && (s[0] == '0' ==> |s| == 1) && ValueOf(s) < 4294967295
  {
    hide *;
    IndexBelow(s, "4294967295") by { TopIsTop(); }
  }

  lemma TopIsTop()
    ensures IsTop("4294967295")
  {
  }

  /** Indices come first, by value; the other keys follow in text order. */
  lemma BeforeExactly(a: string, b: string)
    ensures IsIndex(a) && IsIndex(b) ==> Digits(a) && Digits(b) && (Before(a, b) <==> ValueOf(a) < ValueOf(b))
    ensures IsIndex(a) && !IsIndex(b) ==> Before(a, b) && !Before(b, a)
    ensures !IsIndex(a) && !IsIndex(b) ==> (Before(a, b) <==> Less(a, b))
  {
    hide ValueOf, IsIndex;
    if IsIndex(a) && IsIndex(b) {
      IndexExactly(a);
      IndexExactly(b);
      if |a| == |b| {
        SameLengthByValue(a, b);
      } else if |a| < |b| {
        ShorterIsLess(a, b);
      } else {
        ShorterIsLess(b, a);
      }
    }
  }

  lemma BeforeTotal(a: string, b: string)
    ensures Before(a, b) || Before(b, a) || a == b
    ensures !(Before(a, b) && Before(b, a)) && !Before(a, a)
  {
    hide IsIndex, Less;
    LessTotal(a, b);
    LessTotal(a, a);
  }

  lemma BeforeTransitive(a: string, b: string, c: string)
    requires Before(a, b) && Before(b, c)
    ensures Before(a, c)
  {
    hide IsIndex, Less;
    if Less(a, b) && Less(b, c) { LessTransitive(a, b, c); }
  }

  predicate Increasing(ms: seq<Member>) {
    forall i, j :: 0 <= i < j < |ms| ==> Before(ms[i].key, ms[j].key)
  }

  ghost predicate Sorted(n: Node) {
    n.Object? ==> Increasing(n.members) && forall i :: 0 <= i < |n.members| ==> Sorted(n.members[i].node)
  }

  lemma IncreasingDistinct(ms: seq<Member>)
    requires Increasing(ms)
    ensures Distinct(ms)
  {
    forall i, j | 0 <= i < j < |ms| ensures ms[i].key != ms[j].key {
      BeforeTotal(ms[i].key, ms[j].key);
    }
  }

  lemma {:induction false} SortedWellFormed(n: Node)
    requires Sorted(n)
    ensures WellFormed(n)
  {
    if n.Object? {
      IncreasingDistinct(n.members);
      forall i | 0 <= i < |n.members| ensures WellFormed(n.members[i].node) {
        SortedWellFormed(n.members[i].node);
      }
    }
  }

  /** Two trees agree at every path. */
  ghost predicate SameTree(a: Node, b: Node) {
    forall path: Path :: SameAt(Lookup(a, path), Lookup(b, path))
  }

  ghost predicate SameAt(x: Option<Node>, y: Option<Node>) {
    if x.Some? then y.Some? && Label(x.value) == Label(y.value) else y.None?
  }

  lemma SameChild(a: Node, b: Node, key: string)
    requires a.Object? && b.Object? && SameTree(a, b)
    ensures var x, y := Find(a.members, key), Find(b.members, key);
            (x.Some? <==> y.Some?) && (x.Some? ==> SameTree(x.value, y.value))
  {
    var x, y := Find(a.members, key), Find(b.members, key);
    assert [key][1..] == [];
    assert Lookup(a, [key]) == x && Lookup(b, [key]) == y;
    assert SameAt(Lookup(a, [key]), Lookup(b, [key]));
    if x.Some? {
      forall path: Path ensures SameAt(Lookup(x.value, path), Lookup(y.value, path)) {
        assert ([key] + path)[0] == key && ([key] + path)[1..] == path;
        assert SameAt(Lookup(a, [key] + path), Lookup(b, [key] + path));
      }
    }
  }

  /** Sorted trees that agree at every path are equal. */
  lemma {:induction false} SortedCanonical(a: Node, b: Node)
    requires Sorted(a) && Sorted(b) && SameTree(a, b)
    ensures a == b
    decreases a, 1
  {
    assert SameAt(Lookup(a, []), Lookup(b, []));
    if a.Object? {
      forall key: string
        ensures Agree(a.members, b.members, key)
      {
        SameChild(a, b, key);
      }
      MembersCanonical(a, a.members, b.members);
    }
  }

  ghost predicate Agree(xs: seq<Member>, ys: seq<Member>, key: string) {
    var x, y := Find(xs, key), Find(ys, key);
    (x.Some? <==> y.Some?) && (x.Some? ==> SameTree(x.value, y.value))
  }

  lemma {:induction false} MembersCanonical(a: Node, xs: seq<Member>, ys: seq<Member>)
    requires forall i :: 0 <= i < |xs| ==> xs[i].node < a && Sorted(xs[i].node)
    requires forall i :: 0 <= i < |ys| ==> Sorted(ys[i].node)
    requires Increasing(xs) && Increasing(ys) && forall key: string :: Agree(xs, ys, key)
    ensures xs == ys
    decreases a, 0, |xs|
  {
    assert Agree(xs, ys, if ys == [] then "" else ys[0].key);
    if xs != [] {
      assert Agree(xs, ys, xs[0].key);
      assert ys != [];
      var i := FoundAt(ys, xs[0].key);
      var j := FoundAt(xs, ys[0].key);
      BeforeTotal(xs[0].key, ys[0].key);
      assert xs[0].key == ys[0].key;
      SortedCanonical(xs[0].node, ys[0].node);
      forall key: string ensures Agree(xs[1..], ys[1..], key) {
        assert Agree(xs, ys, key);
        if key == xs[0].key {
          IncreasingDistinct(xs);
          IncreasingDistinct(ys);
          FindNone(xs[1..], key);
          FindNone(ys[1..], key);
        }
      }
      MembersCanonical(a, xs[1..], ys[1..]);
      assert xs == [xs[0]] + xs[1..] && ys == [ys[0]] + ys[1..];
    }
  }
}
