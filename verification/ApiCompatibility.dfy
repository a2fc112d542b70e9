/** What the three lists of a comparison mean, in terms of the paths of the two trees. */
module ApiCompatibility {
  import opened Results
  import opened ApiTree
  import opened ApiCompare

  function Render(prefix: string, path: Path): string
    decreases |path|
  {
    if path == [] then prefix else Render(ChildPath(prefix, path[0]), path[1..])
  }

  ghost predicate ObjectAt(n: Node, path: Path) {
    Lookup(n, path).Some? && Lookup(n, path).value.Object?
  }

  /** Two nodes at one path: kind, arity, constructor or primitive type got worse. */
  function LocalBreak(x: Node, y: Node, at: string): Option<Finding> {
    if Kind(x) != Kind(y) then Some(TypeChanged(at, Kind(x), Kind(y)))
    else if x.Callable? && y.arity < x.arity then Some(ArityDecreased(at, x.arity, y.arity))
    else if x.Instance? && y.ctorName != x.ctorName then Some(CtorChanged(at, x.ctorName, y.ctorName))
    else if x.Primitive? && y.valueType != x.valueType then Some(PrimitiveChanged(at, x.valueType, y.valueType))
    else None
  }

  function LocalGain(x: Node, y: Node, at: string): Option<Finding> {
    if x.Callable? && y.Callable? && y.arity > x.arity then Some(ArityIncreased(at, x.arity, y.arity)) else None
  }

  /** The breaking finding due at a path, from what the two trees have there: a path is removed when its
      parent is still an object and it is gone. */
  ghost function BreakAt(was: Node, now: Node, path: Path, prefix: string): Option<Finding> {
    var x, y := Lookup(was, path), Lookup(now, path);
    if x.None? then None
    else if y.Some? then LocalBreak(x.value, y.value, Render(prefix, path))
    else if path != [] && ObjectAt(now, path[..|path| - 1]) then Some(Removed(Render(prefix, path), Kind(x.value)))
    else None
  }

  ghost function GainAt(was: Node, now: Node, path: Path, prefix: string): Option<Finding> {
    var x, y := Lookup(was, path), Lookup(now, path);
    if y.None? then None
    else if x.Some? then LocalGain(x.value, y.value, Render(prefix, path))
    else if path != [] && ObjectAt(was, path[..|path| - 1]) then Some(Added(Render(prefix, path), Kind(y.value)))
    else None
  }

  ghost function ChangeAt(was: Node, now: Node, path: Path, prefix: string, gains: bool): Option<Finding> {
    if gains then GainAt(was, now, path, prefix) else BreakAt(was, now, path, prefix)
  }

  function Pick(d: Findings, gains: bool): seq<Finding> {
    if gains then d.additive else d.breaking
  }

  // ---------------------------------------------------------------- one level

  lemma ChangeBelow(was: Node, now: Node, k: string, q: Path, prefix: string, gains: bool)
    requires was.Object? && now.Object?
    ensures var x, y := Find(was.members, k), Find(now.members, k);
            ChangeAt(was, now, [k] + q, prefix, gains) ==
            if x.Some? && y.Some? then ChangeAt(x.value, y.value, q, ChildPath(prefix, k), gains)
            else if q != [] then None
            else if x.Some? && !gains then Some(Removed(ChildPath(prefix, k), Kind(x.value)))
            else if y.Some? && gains then Some(Added(ChildPath(prefix, k), Kind(y.value)))
            else None
  {
    hide LocalBreak, LocalGain, ChildPath;
    var path := [k] + q;
    assert path[0] == k && path[1..] == q;
    assert Render(prefix, path) == Render(ChildPath(prefix, k), q);
    if q == [] {
      assert path[..|path| - 1] == [];
      assert Lookup(was, path) == Find(was.members, k) && Lookup(now, path) == Find(now.members, k);
    } else {
      var up := path[..|path| - 1];
      assert up[0] == k && up[1..] == q[..|q| - 1];
    }
  }

  lemma NoChangeBelow(was: Node, now: Node, path: Path, prefix: string, gains: bool)
    requires path != [] && !(was.Object? && now.Object?)
    ensures ChangeAt(was, now, path, prefix, gains).None?
  {
    var up := path[..|path| - 1];
    if |path| == 1 { assert up == []; } else { assert up[0] == path[0]; }
  }

  // ---------------------------------------------------------------- the loops

  lemma {:induction false} FromOld(was: Node, ms: seq<Member>, ns: seq<Member>, prefix: string, gains: bool, f: Finding) returns (i: nat)
    requires forall i :: 0 <= i < |ms| ==> ms[i].node < was
    requires f in Pick(DiffOld(was, ms, ns, prefix), gains)
    ensures i < |ms| && f in Pick(DiffMember(ms[i], ns, prefix), gains)
    decreases |ms|
  {
    hide DiffMember;
    var last := |ms| - 1;
    if f in Pick(DiffMember(ms[last], ns, prefix), gains) {
      i := last;
    } else {
      i := FromOld(was, ms[..last], ns, prefix, gains, f);
    }
  }

  lemma {:induction false} IntoOld(was: Node, ms: seq<Member>, ns: seq<Member>, prefix: string, gains: bool, f: Finding, i: nat)
    requires forall i :: 0 <= i < |ms| ==> ms[i].node < was
    requires i < |ms| && f in Pick(DiffMember(ms[i], ns, prefix), gains)
    ensures f in Pick(DiffOld(was, ms, ns, prefix), gains)
    decreases |ms|
  {
    hide DiffMember;
    var last := |ms| - 1;
    if i < last { IntoOld(was, ms[..last], ns, prefix, gains, f, i); }
  }

  lemma {:induction false} FromAdded(ms: seq<Member>, ns: seq<Member>, prefix: string, f: Finding) returns (i: nat)
    requires f in AddedTo(ms, ns, prefix)
    ensures i < |ns| && Find(ms, ns[i].key).None? && f == Added(ChildPath(prefix, ns[i].key), Kind(ns[i].node))
    decreases |ns|
  {
    hide Find, ChildPath, Kind;
    var last := |ns| - 1;
    if f in AddedTo(ms, ns[..last], prefix) {
      i := FromAdded(ms, ns[..last], prefix, f);
    } else {
      i := last;
    }
  }

  lemma {:induction false} IntoAdded(ms: seq<Member>, ns: seq<Member>, prefix: string, i: nat)
    requires i < |ns| && Find(ms, ns[i].key).None?
    ensures Added(ChildPath(prefix, ns[i].key), Kind(ns[i].node)) in AddedTo(ms, ns, prefix)
    decreases |ns|
  {
    hide Find, ChildPath, Kind;
    var last := |ns| - 1;
    if i < last { IntoAdded(ms, ns[..last], prefix, i); }
  }

  // ---------------------------------------------------------------- findings and paths

  /** Every finding is due at some path. */
  lemma {:induction false} FindingHasPath(was: Node, now: Node, prefix: string, gains: bool, f: Finding) returns (path: Path)
    requires WellFormed(was) && WellFormed(now) && f in Pick(Diff(was, now, prefix), gains)
    ensures ChangeAt(was, now, path, prefix, gains) == Some(f)
    decreases was
  {
    if was.Object? && now.Object? {
      var ms, ns := was.members, now.members;
      if f in Pick(DiffOld(was, ms, ns, prefix), gains) {
        var i := FromOld(was, ms, ns, prefix, gains, f);
        FindAt(ms, i);
        var k := ms[i].key;
        var q: Path := [];
        if Find(ns, k).Some? {
          FindWellFormed(now, k);
          q := FindingHasPath(ms[i].node, Find(ns, k).value, ChildPath(prefix, k), gains, f);
        }
        ChangeBelow(was, now, k, q, prefix, gains);
        path := [k] + q;
      } else {
        var i := FromAdded(ms, ns, prefix, f);
        FindAt(ns, i);
        ChangeBelow(was, now, ns[i].key, [], prefix, gains);
        path := [ns[i].key] + [];
      }
    } else {
      path := [];
    }
  }

  /** Whatever is due at a path is found. */
  lemma {:induction false} PathIsFound(was: Node, now: Node, prefix: string, gains: bool, path: Path)
    requires WellFormed(was) && WellFormed(now) && ChangeAt(was, now, path, prefix, gains).Some?
    ensures ChangeAt(was, now, path, prefix, gains).value in Pick(Diff(was, now, prefix), gains)
    decreases |path|
  {
    if path != [] {
      if !(was.Object? && now.Object?) {
        NoChangeBelow(was, now, path, prefix, gains);
      } else {
        ChildIsFound(was, now, prefix, gains, path);
      }
    }
  }

  lemma ChildIsFound(was: Node, now: Node, prefix: string, gains: bool, path: Path)
    requires WellFormed(was) && WellFormed(now) && ChangeAt(was, now, path, prefix, gains).Some?
    requires path != [] && was.Object? && now.Object?
    ensures ChangeAt(was, now, path, prefix, gains).value in Pick(Diff(was, now, prefix), gains)
    decreases |path|, 0
  {
    hide ChangeAt, DiffLeaf;
    var ms, ns, k, q := was.members, now.members, path[0], path[1..];
    assert path == [k] + q;
    ChangeBelow(was, now, k, q, prefix, gains);
    var f := ChangeAt(was, now, path, prefix, gains).value;
    var x, y := Find(ms, k), Find(ns, k);
    if x.Some? {
      var i := FoundAt(ms, k);
      assert ms[i].node < was;
      if y.Some? {
        FindWellFormed(was, k);
        FindWellFormed(now, k);
        PathIsFound(x.value, y.value, ChildPath(prefix, k), gains, q);
      }
      assert f in Pick(DiffMember(ms[i], ns, prefix), gains);
      IntoOld(was, ms, ns, prefix, gains, f, i);
    } else {
      var i := FoundAt(ns, k);
      IntoAdded(ms, ns, prefix, i);
    }
  }

  /** The two lists are exactly the findings due at the paths of the two trees. */
  lemma FindingsExactly(was: Node, now: Node, prefix: string, f: Finding)
    requires WellFormed(was) && WellFormed(now)
    ensures var d := Diff(was, now, prefix);
            && (f in d.breaking <==> exists path: Path :: BreakAt(was, now, path, prefix) == Some(f))
            && (f in d.additive <==> exists path: Path :: GainAt(was, now, path, prefix) == Some(f))
  {
    hide BreakAt, GainAt, Diff;
    var d := Diff(was, now, prefix);
    assert Pick(d, false) == d.breaking && Pick(d, true) == d.additive;
    if f in d.breaking {
      var path := FindingHasPath(was, now, prefix, false, f);
      assert BreakAt(was, now, path, prefix) == Some(f);
    }
    if f in d.additive {
      var path := FindingHasPath(was, now, prefix, true, f);
      assert GainAt(was, now, path, prefix) == Some(f);
    }
    if path: Path :| BreakAt(was, now, path, prefix) == Some(f) { PathIsFound(was, now, prefix, false, path); }
    if path: Path :| GainAt(was, now, path, prefix) == Some(f) { PathIsFound(was, now, prefix, true, path); }
  }

  // ---------------------------------------------------------------- compatibility

  /** A caller of x is served by y. */
  ghost predicate Serves(x: Node, y: Node) {
    && Kind(x) == Kind(y)
    && (x.Callable? ==> y.arity >= x.arity)
    && (x.Instance? ==> y.ctorName == x.ctorName)
    && (x.Primitive? ==> y.valueType == x.valueType)
  }

  ghost predicate SurvivesAt(was: Node, now: Node, path: Path) {
    var x, y := Lookup(was, path), Lookup(now, path);
    x.Some? ==> y.Some? && Serves(x.value, y.value)
  }

  /** Every old path survives. */
  ghost predicate Compatible(was: Node, now: Node) {
    forall path: Path :: SurvivesAt(was, now, path)
  }

  /** The highest ancestor of a lost path that is lost. */
  lemma {:induction false} LostSomewhere(a: Node, b: Node, path: Path) returns (p: Path)
    requires Lookup(a, path).Some? && Lookup(b, path).None?
    ensures p != [] && Lookup(a, p).Some? && Lookup(b, p).None?
    ensures Lookup(b, p[..|p| - 1]).Some? && ObjectAt(a, p[..|p| - 1])
    decreases |path|
  {
    var up, last := path[..|path| - 1], path[|path| - 1..];
    assert path == up + last;
    LookupSplit(a, up, last);
    LookupSplit(b, up, last);
    if Lookup(b, up).Some? {
      p := path;
    } else {
      p := LostSomewhere(a, b, up);
    }
  }

  lemma NoneDue(was: Node, now: Node, prefix: string)
    requires Compatible(was, now)
    ensures forall path: Path :: BreakAt(was, now, path, prefix) == None
  {
    hide Lookup, Render;
    forall path: Path ensures BreakAt(was, now, path, prefix) == None {
      assert SurvivesAt(was, now, path);
    }
  }

  lemma NoneGained(was: Node, now: Node, prefix: string)
    requires SameTree(was, now)
    ensures forall path: Path :: GainAt(was, now, path, prefix) == None
  {
    hide Lookup, Render;
    forall path: Path ensures GainAt(was, now, path, prefix) == None {
      assert SameAt(Lookup(was, path), Lookup(now, path));
    }
  }

  /** Soundness and completeness: nothing breaking is listed exactly when every old path survives with
      the same kind, constructor and primitive type and no smaller arity. */
  lemma BreakingExactly(was: Node, now: Node, prefix: string)
    requires WellFormed(was) && WellFormed(now)
    ensures Diff(was, now, prefix).breaking == [] <==> Compatible(was, now)
  {
    hide Diff, Lookup, Render;
    var d := Diff(was, now, prefix);
    if d.breaking == [] {
      forall path: Path ensures SurvivesAt(was, now, path) {
        if !SurvivesAt(was, now, path) {
          var p := path;
          if Lookup(now, path).None? {
            p := LostSomewhere(was, now, path);
            var up := p[..|p| - 1];
            if !ObjectAt(now, up) { p := up; }
          }
          assert BreakAt(was, now, p, prefix).Some?;
          PathIsFound(was, now, prefix, false, p);
          assert false;
        }
      }
    }
    if Compatible(was, now) && d.breaking != [] {
      NoneDue(was, now, prefix);
      var path := FindingHasPath(was, now, prefix, false, d.breaking[0]);
      assert false;
    }
  }

  /** If nothing is listed at all, the trees are the same. */
  lemma NothingMeansSame(was: Node, now: Node, prefix: string)
    requires WellFormed(was) && WellFormed(now)
    requires Diff(was, now, prefix).breaking == [] && Diff(was, now, prefix).additive == []
    ensures SameTree(was, now)
  {
    hide Diff, Lookup, Render;
    BreakingExactly(was, now, prefix);
    hide Compatible, BreakAt;
    forall path: Path ensures SameAt(Lookup(was, path), Lookup(now, path)) {
      assert SurvivesAt(was, now, path) by { SurvivesEach(was, now, path); }
      if !SameAt(Lookup(was, path), Lookup(now, path)) {
        var p := path;
        if Lookup(was, path).None? { p := LostSomewhere(now, was, path); StillObject(was, now, p); }
        assert GainAt(was, now, p, prefix).Some?;
        PathIsFound(was, now, prefix, true, p);
        assert false;
      }
    }
  }

  lemma SurvivesEach(was: Node, now: Node, path: Path)
    requires Compatible(was, now)
    ensures SurvivesAt(was, now, path)
  {
  }

  /** Nothing at all is listed exactly when the trees are the same. */
  lemma NothingExactly(was: Node, now: Node, prefix: string)
    requires WellFormed(was) && WellFormed(now)
    ensures var d := Diff(was, now, prefix);
            d.breaking == [] && d.additive == [] <==> SameTree(was, now)
  {
    hide Diff, Lookup, BreakAt, GainAt;
    var d := Diff(was, now, prefix);
    if d.breaking == [] && d.additive == [] {
      NothingMeansSame(was, now, prefix);
    }
    if SameTree(was, now) {
      forall path: Path ensures SurvivesAt(was, now, path) {
        assert SameAt(Lookup(was, path), Lookup(now, path));
      }
      BreakingExactly(was, now, prefix);
      if d.additive != [] {
        NoneGained(was, now, prefix);
        var path := FindingHasPath(was, now, prefix, true, d.additive[0]);
        assert false;
      }
    }
  }

  lemma StillObject(was: Node, now: Node, p: Path)
    requires p != [] && Compatible(was, now)
    requires Lookup(was, p[..|p| - 1]).Some? && ObjectAt(now, p[..|p| - 1])
    ensures ObjectAt(was, p[..|p| - 1])
  {
    assert SurvivesAt(was, now, p[..|p| - 1]);
  }

  /** Captured trees list their members in sorted order; for them, nothing is listed exactly when they
      are equal. */
  lemma NothingMeansEqual(was: Node, now: Node, prefix: string)
    requires Sorted(was) && Sorted(now)
    ensures var d := Diff(was, now, prefix);
            d.breaking == [] && d.additive == [] <==> was == now
  {
    SortedWellFormed(was);
    SortedWellFormed(now);
    NothingExactly(was, now, prefix);
    if SameTree(was, now) { SortedCanonical(was, now); }
  }

  /** Compatibility is a preorder, so a chain of releases without a breaking entry has none end to end. */
  lemma CompatibleChain(a: Node, b: Node, c: Node, prefix: string)
    requires WellFormed(a) && WellFormed(b) && WellFormed(c)
    ensures Diff(a, a, prefix) == Nothing
    ensures Diff(a, b, prefix).breaking == [] && Diff(b, c, prefix).breaking == [] ==> Diff(a, c, prefix).breaking == []
  {
    hide Diff, Lookup;
    NothingExactly(a, a, prefix);
    TypeChangesAreBreaking(a, a, prefix);
    BreakingExactly(a, b, prefix);
    BreakingExactly(b, c, prefix);
    BreakingExactly(a, c, prefix);
    if Compatible(a, b) && Compatible(b, c) {
      forall path: Path ensures SurvivesAt(a, c, path) {
        assert SurvivesAt(a, b, path) && SurvivesAt(b, c, path);
      }
    }
  }

  // ---------------------------------------------------------------- type changes

  /** The type changes of a list, in order. */
  function TypeChanges(fs: seq<Finding>): seq<Finding> {
    if fs == [] then []
    else
      var rest := TypeChanges(fs[..|fs| - 1]);
      if fs[|fs| - 1].TypeChanged? then rest + [fs[|fs| - 1]] else rest
  }

  lemma {:induction false} TypeChangesPlus(a: seq<Finding>, b: seq<Finding>)
    ensures TypeChanges(a + b) == TypeChanges(a) + TypeChanges(b)
    decreases |b|
  {
    if b == [] {
      assert a + b == a;
    } else {
      assert (a + b)[..|a + b| - 1] == a + b[..|b| - 1];
      TypeChangesPlus(a, b[..|b| - 1]);
    }
  }

  lemma {:induction false} OldTypeChanges(was: Node, ms: seq<Member>, ns: seq<Member>, prefix: string)
    requires forall i :: 0 <= i < |ms| ==> ms[i].node < was
    ensures var d := DiffOld(was, ms, ns, prefix); d.typeChanged == TypeChanges(d.breaking)
    decreases was, 0, |ms|
  {
    if ms != [] {
      var m := ms[|ms| - 1];
      OldTypeChanges(was, ms[..|ms| - 1], ns, prefix);
      var child := Find(ns, m.key);
      if child.Some? {
        TypeChangesAreBreaking(m.node, child.value, ChildPath(prefix, m.key));
      }
      TypeChangesPlus(DiffOld(was, ms[..|ms| - 1], ns, prefix).breaking, DiffMember(m, ns, prefix).breaking);
    }
  }

  /** The third list is the type changes of the first, in the same order. */
  lemma {:induction false} TypeChangesAreBreaking(was: Node, now: Node, prefix: string)
    ensures var d := Diff(was, now, prefix); d.typeChanged == TypeChanges(d.breaking)
    decreases was, 1
  {
    if was.Object? && now.Object? {
      OldTypeChanges(was, was.members, now.members, prefix);
      var d := DiffOld(was, was.members, now.members, prefix);
      assert d.breaking + [] == d.breaking && d.typeChanged + [] == d.typeChanged;
    }
  }

  // ---------------------------------------------------------------- printed paths

  predicate PlainKeys(path: Path) {
    forall i :: 0 <= i < |path| ==> path[i] != "" && '.' !in path[i]
  }

  /** Two member paths print alike only if they are the same, as long as no key is empty or has a dot. */
  lemma {:induction false} RenderInjective(p: Path, q: Path, prefix: string)
    requires PlainKeys(p) && PlainKeys(q) && Render(prefix, p) == Render(prefix, q)
    ensures p == q
    decreases |p| + |q|
  {
    if p != [] && q != [] {
      var k, l := p[|p| - 1], q[|q| - 1];
      var up, uq := p[..|p| - 1], q[..|q| - 1];
      RenderLast(prefix, p);
      RenderLast(prefix, q);
      LastKey(Render(prefix, up), k, Render(prefix, uq), l);
      RenderInjective(up, uq, prefix);
      assert p == up + [k] && q == uq + [l];
    } else if p != [] {
      RenderGrows(prefix, p);
    } else if q != [] {
      RenderGrows(prefix, q);
    }
  }

  lemma {:induction false} RenderLast(prefix: string, p: Path)
    requires p != []
    ensures Render(prefix, p) == ChildPath(Render(prefix, p[..|p| - 1]), p[|p| - 1])
    decreases |p|
  {
    if |p| == 1 {
      assert p[1..] == [] && p[..0] == [];
    } else {
      RenderLast(ChildPath(prefix, p[0]), p[1..]);
      assert p[1..][..|p| - 2] == p[..|p| - 1][1..];
    }
  }

  /** A path prints as its keys with dots between them: the last key behind what comes before it. */
  lemma RenderExactly(path: Path, key: string)
    ensures Render("", []) == ""
    ensures var up := Render("", path); Render("", path + [key]) == if up == "" then key else up + "." + key
  {
    assert (path + [key])[..|path|] == path;
    RenderLast("", path + [key]);
  }

  lemma {:induction false} RenderGrows(prefix: string, p: Path)
    requires PlainKeys(p)
    ensures |Render(prefix, p)| >= |prefix| + |p|
    decreases |p|
  {
    if p != [] {
      assert p[0] != "";
      RenderGrows(ChildPath(prefix, p[0]), p[1..]) by {
        assert forall i :: 0 <= i < |p| - 1 ==> p[1..][i] == p[i + 1];
      }
    }
  }

  lemma LastKey(a: string, k: string, b: string, l: string)
    requires k != "" && l != "" && '.' !in k && '.' !in l
    requires ChildPath(a, k) == ChildPath(b, l)
    ensures a == b && k == l
  {
    var s := ChildPath(a, k);
    KeyEnds(a, k);
    KeyEnds(b, l);
    hide ChildPath;
    assert |a| == |b|;
    assert a == s[..|a|] == b;
    assert k == s[|s| - |k|..] == s[|s| - |l|..] == l;
  }

  /** The last dot of a child path, if it has one, is where its prefix ends. */
  lemma KeyEnds(a: string, k: string)
    requires k != "" && '.' !in k
    ensures var s := ChildPath(a, k);
            && |s| == |a| + |k| + (if a == "" then 0 else 1)
            && s[..|a|] == a && s[|s| - |k|..] == k
            && (a != "" ==> s[|a|] == '.')
            && forall i :: |s| - |k| <= i < |s| ==> s[i] != '.'
  {
    var s := ChildPath(a, k);
    assert s[|s| - |k|..] == k;
    forall i | |s| - |k| <= i < |s| ensures s[i] != '.' {
      assert s[i] == k[i - (|s| - |k|)];
    }
  }
}
