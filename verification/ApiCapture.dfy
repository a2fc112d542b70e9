/**
 The capture of an exports object as a tree (lib/api-snapshot.js `_walkNode`). The object graph is a
 heap of identities, cyclic or not; getters and proxies are not modelled.
 */
module ApiCapture {
  import opened Results
  import opened ApiTree
  import opened ApiCompare
  import opened ApiCompatibility

  /** A value: a primitive with its type, a function, or a reference. */
  datatype Value = Simple(valueType: string) | Func(length: nat) | Ref(id: nat)

  datatype Slot = Slot(key: string, value: Value)

  /** A plain object with its own enumerable members, or an instance of some constructor. */
  datatype Entity = Plain(slots: seq<Slot>) | Built(ctorName: string)

  type Heap = nat -> Entity

  predicate Skipped(key: string, skipUnderscore: bool) {
    skipUnderscore && key != "" && key[0] == '_'
  }

  predicate InOrder(slots: seq<Slot>) {
    forall i, j :: 0 <= i < j < |slots| ==> Less(slots[i].key, slots[j].key)
  }

  function FindSlot(slots: seq<Slot>, key: string): Option<Value> {
    if slots == [] then None else if slots[0].key == key then Some(slots[0].value) else FindSlot(slots[1..], key)
  }

  /** `keys.sort()`, keeping the values with their keys. */
  function Insert(s: Slot, slots: seq<Slot>): seq<Slot> {
    if slots == [] || Less(s.key, slots[0].key) then [s] + slots
    else if s.key == slots[0].key then slots
    else [slots[0]] + Insert(s, slots[1..])
  }

  function SortSlots(slots: seq<Slot>): seq<Slot> {
    if slots == [] then [] else Insert(slots[|slots| - 1], SortSlots(slots[..|slots| - 1]))
  }

  lemma {:induction false} InsertSorted(s: Slot, slots: seq<Slot>)
    requires InOrder(slots)
    ensures var r := Insert(s, slots);
            && InOrder(r)
            && (forall i :: 0 <= i < |r| ==> r[i] == s || r[i] in slots)
            && (forall k: string :: FindSlot(r, k) == if k == s.key && FindSlot(slots, k).None? then Some(s.value) else FindSlot(slots, k))
  {
    var r := Insert(s, slots);
    if slots != [] && !Less(s.key, slots[0].key) && s.key != slots[0].key {
      var rest := Insert(s, slots[1..]);
      InsertSorted(s, slots[1..]);
      LessTotal(s.key, slots[0].key);
      forall j | 1 <= j < |r| ensures Less(r[0].key, r[j].key) {
        assert rest[j - 1] == s || rest[j - 1] in slots[1..];
      }
    } else if slots != [] && Less(s.key, slots[0].key) {
      assert r[1..] == slots;
      forall j | 1 <= j < |r| ensures Less(r[0].key, r[j].key) {
        if j > 1 { LessTransitive(s.key, slots[0].key, slots[j - 1].key); }
      }
      AboveAll(s.key, slots);
    } else if slots == [] {
      assert r[1..] == [];
    }
  }

  lemma {:induction false} AboveAll(key: string, slots: seq<Slot>)
    requires InOrder(slots) && (slots != [] ==> Less(key, slots[0].key))
    ensures FindSlot(slots, key).None?
  {
    if slots != [] {
      LessTotal(key, slots[0].key);
      if |slots| > 1 { LessTransitive(key, slots[0].key, slots[1].key); }
      AboveAll(key, slots[1..]);
    }
  }

  lemma {:induction false} FindSlotLast(slots: seq<Slot>, s: Slot, k: string)
    ensures FindSlot(slots + [s], k) ==
            if FindSlot(slots, k).Some? then FindSlot(slots, k) else if s.key == k then Some(s.value) else None
  {
    if slots == [] {
      assert slots + [s] == [s];
    } else {
      assert (slots + [s])[1..] == slots[1..] + [s];
      FindSlotLast(slots[1..], s, k);
    }
  }

  /** Sorting puts the keys in order and keeps every value under its key. */
  lemma {:induction false} SortKeeps(slots: seq<Slot>)
    ensures InOrder(SortSlots(slots))
    ensures forall k: string :: FindSlot(SortSlots(slots), k) == FindSlot(slots, k)
    decreases |slots|
  {
    if slots != [] {
      var front, last := slots[..|slots| - 1], slots[|slots| - 1];
      SortKeeps(front);
      InsertSorted(last, SortSlots(front));
      forall k: string ensures FindSlot(SortSlots(slots), k) == FindSlot(slots, k) {
        FindSlotLast(front, last, k);
        assert slots == front + [last];
      }
    }
  }

  // ---------------------------------------------------------------- the walk

  datatype Walk = Walk(heap: Heap, maxDepth: nat, skipUnderscore: bool)

  function CtorName(name: string): string {
    if name != "" then name else "Object"
  }

  /** The tree captured from a value, below the objects in `seen`. */
  function Capture(w: Walk, v: Value, depth: nat, seen: set<nat>): Node
    requires depth <= w.maxDepth
    decreases w.maxDepth - depth, 1, 0
  {
    match v
    case Simple(t) => Primitive(t)
    case Func(n) => Callable(n)
    case Ref(id) =>
      if id in seen then Cycle
      else if depth >= w.maxDepth then Deep
      else
        match w.heap(id)
        case Built(name) => Instance(CtorName(name))
        case Plain(slots) => Object(CaptureMembers(w, SortSlots(slots), depth, seen + {id}))
  }

  const PROTO := "__proto__"

  /** `members[key] = node` on an ordinary object: a key `__proto__` sets the prototype and adds no
      member; an array index is enumerated among the indices, any other key last. */
  function Put(ms: seq<Member>, key: string, node: Node): seq<Member> {
    if key == PROTO then ms
    else if ms == [] then [Member(key, node)]
    else if ms[0].key == key then [Member(key, node)] + ms[1..]
    else if IsIndex(key) && Before(key, ms[0].key) then [Member(key, node)] + ms
    else [ms[0]] + Put(ms[1..], key, node)
  }

  function CaptureMembers(w: Walk, slots: seq<Slot>, depth: nat, seen: set<nat>): seq<Member>
    requires depth < w.maxDepth
    decreases w.maxDepth - depth, 0, |slots|
  {
    if slots == [] then []
    else
      var s := slots[|slots| - 1];
      var ms := CaptureMembers(w, slots[..|slots| - 1], depth, seen);
      if Skipped(s.key, w.skipUnderscore) then ms else Put(ms, s.key, Capture(w, s.value, depth + 1, seen))
  }

  /** The walk's shared set of objects being walked. */
  class Walker {
    const walk: Walk
    var seen: set<nat>

    constructor (walk: Walk)
      ensures this.walk == walk && seen == {}
    {
      this.walk := walk;
      seen := {};
    }

    /** `_walkNode` */
    method WalkNode(v: Value, depth: nat) returns (n: Node)
      requires depth <= walk.maxDepth
      modifies this
      ensures seen == old(seen) && n == Capture(walk, v, depth, seen)
      decreases walk.maxDepth - depth
    {
      match v {
        case Simple(t) => return Primitive(t);
        case Func(length) => return Callable(length);
        case Ref(id) =>
          if id in seen { return Cycle; }
          if depth >= walk.maxDepth { return Deep; }
          match walk.heap(id) {
            case Built(name) => return Instance(CtorName(name));
            case Plain(slots) =>
              seen := seen + {id};
              var members: seq<Member> := [];
              var keys := SortSlots(slots);
              for i := 0 to |keys|
                invariant seen == old(seen) + {id}
                invariant members == CaptureMembers(walk, keys[..i], depth, seen)
              {
                assert keys[..i + 1][..i] == keys[..i];
                if !Skipped(keys[i].key, walk.skipUnderscore) {
                  var child := WalkNode(keys[i].value, depth + 1);
                  members := Put(members, keys[i].key, child);
                }
              }
              assert keys[..|keys|] == keys;
              seen := seen - {id};
              n := Object(members);
          }
      }
    }
  }

  // ---------------------------------------------------------------- what is captured

  /** The value at a path of the object graph, and the objects passed on the way. */
  datatype Visit = Visit(value: Value, trail: seq<nat>)

  ghost function Follow(w: Walk, v: Value, path: Path): Option<Visit>
    decreases |path|
  {
    if path == [] then Some(Visit(v, []))
    else if !v.Ref? || !w.heap(v.id).Plain? || (w.skipUnderscore && path[0] != "" && path[0][0] == '_') then None
    else
      var child := FindSlot(w.heap(v.id).slots, path[0]);
      if child.None? then None
      else
        var rest := Follow(w, child.value, path[1..]);
        if rest.None? then None else Some(rest.value.(trail := [v.id] + rest.value.trail))
  }

  ghost predicate NoRepeat(trail: seq<nat>, seen: set<nat>) {
    && (forall i :: 0 <= i < |trail| ==> trail[i] !in seen)
    && forall i, j :: 0 <= i < j < |trail| ==> trail[i] != trail[j]
  }

  ghost function Elements(trail: seq<nat>): set<nat> {
    set i | 0 <= i < |trail| :: trail[i]
  }

  /** What the tree says at a path that leads to a value at a given depth. */
  ghost function LabelOf(w: Walk, v: Value, depth: nat, passed: set<nat>): Node {
    match v
    case Simple(t) => Primitive(t)
    case Func(n) => Callable(n)
    case Ref(id) =>
      if id in passed then Cycle
      else if depth >= w.maxDepth then Deep
      else if w.heap(id).Built? then Instance(if w.heap(id).ctorName == "" then "Object" else w.heap(id).ctorName)
      else Object([])
  }

  /** The path leads to a value, past no object twice, and no deeper than the cap. */
  ghost predicate Visible(w: Walk, v: Value, path: Path, depth: nat, seen: set<nat>) {
    var visit := Follow(w, v, path);
    visit.Some? && NoRepeat(visit.value.trail, seen) && depth + |path| <= w.maxDepth
  }

  lemma {:induction false} PutHolds(ms: seq<Member>, key: string, node: Node, k: string)
    ensures Find(Put(ms, key, node), k) == if k == key && key != PROTO then Some(node) else Find(ms, k)
  {
    if key != PROTO && ms != [] && ms[0].key != key && !(IsIndex(key) && Before(key, ms[0].key)) {
      PutHolds(ms[1..], key, node, k);
    }
  }

  lemma {:induction false} MembersHold(w: Walk, slots: seq<Slot>, depth: nat, seen: set<nat>, key: string)
    requires depth < w.maxDepth && InOrder(slots)
    ensures Find(CaptureMembers(w, slots, depth, seen), key) ==
            if key == PROTO || Skipped(key, w.skipUnderscore) || FindSlot(slots, key).None? then None
            else Some(Capture(w, FindSlot(slots, key).value, depth + 1, seen))
    decreases |slots|
  {
    hide Capture, Skipped, Put;
    if slots != [] {
      var front, s := slots[..|slots| - 1], slots[|slots| - 1];
      MembersHold(w, front, depth, seen, key);
      FindSlotLast(front, s, key);
      assert slots == front + [s];
      LastIsNew(front, s);
      PutHolds(CaptureMembers(w, front, depth, seen), s.key, Capture(w, s.value, depth + 1, seen), key);
    }
  }

  lemma {:induction false} LastIsNew(front: seq<Slot>, s: Slot)
    requires InOrder(front + [s])
    ensures FindSlot(front, s.key).None?
  {
    if front != [] {
      assert (front + [s])[0] == front[0] && (front + [s])[|front|] == s;
      LessTotal(front[0].key, s.key);
      assert (front + [s])[1..] == front[1..] + [s];
      LastIsNew(front[1..], s);
    }
  }

  /** The captured tree is exact, on cyclic graphs too: it has a node at a path exactly when the path
      leads to a value without passing an object twice, within the depth cap and past no key
      `__proto__`; and the node says what the value is, `cycle` exactly where the value is one of the
      objects passed. */
  lemma {:induction false} CaptureExactly(w: Walk, v: Value, depth: nat, seen: set<nat>, path: Path)
    requires depth <= w.maxDepth
    ensures var node := Lookup(Capture(w, v, depth, seen), path);
            && (node.Some? <==> Visible(w, v, path, depth, seen) && "__proto__" !in path)
            && (node.Some? ==>
                  var visit := Follow(w, v, path).value;
                  Label(node.value) == LabelOf(w, visit.value, depth + |path|, seen + Elements(visit.trail)))
    decreases |path|
  {
    hide Insert, SortSlots, CaptureMembers, FindSlot, Find;
    if path == [] {
      assert seen + Elements([]) == seen;
    } else if v.Ref? && w.heap(v.id).Plain? {
      StepExactly(w, v, depth, seen, path);
    }
  }

  /** The first step of a lookup in the captured tree. */
  lemma LookupStep(w: Walk, v: Value, depth: nat, seen: set<nat>, path: Path)
    requires depth <= w.maxDepth && path != [] && v.Ref? && w.heap(v.id).Plain?
    ensures var child := FindSlot(w.heap(v.id).slots, path[0]);
            Lookup(Capture(w, v, depth, seen), path) ==
            if v.id in seen || depth >= w.maxDepth || path[0] == PROTO || Skipped(path[0], w.skipUnderscore) || child.None? then None
            else Lookup(Capture(w, child.value, depth + 1, seen + {v.id}), path[1..])
  {
    hide Insert, SortSlots, CaptureMembers, FindSlot, Find, Skipped;
    if v.id !in seen && depth < w.maxDepth {
      SortKeeps(w.heap(v.id).slots);
      MembersHold(w, SortSlots(w.heap(v.id).slots), depth, seen + {v.id}, path[0]);
    }
  }

  lemma SkippedMeans(key: string, skipUnderscore: bool)
    ensures Skipped(key, skipUnderscore) <==> skipUnderscore && key != "" && key[0] == '_'
  {
  }

  lemma StepExactly(w: Walk, v: Value, depth: nat, seen: set<nat>, path: Path)
    requires depth <= w.maxDepth && path != [] && v.Ref? && w.heap(v.id).Plain?
    ensures var node := Lookup(Capture(w, v, depth, seen), path);
            && (node.Some? <==> Visible(w, v, path, depth, seen) && "__proto__" !in path)
            && (node.Some? ==>
                  var visit := Follow(w, v, path).value;
                  Label(node.value) == LabelOf(w, visit.value, depth + |path|, seen + Elements(visit.trail)))
    decreases |path|, 0
  {
    hide Capture, Lookup, FindSlot, Skipped, LabelOf, Label, NoRepeat;
    var slots, k, q := w.heap(v.id).slots, path[0], path[1..];
    assert path == [k] + q;
    LookupStep(w, v, depth, seen, path);
    SkippedMeans(k, w.skipUnderscore);
    var child := FindSlot(slots, k);
    if child.Some? && !Skipped(k, w.skipUnderscore) && Follow(w, child.value, q).Some? {
      var rest := Follow(w, child.value, q).value.trail;
      if v.id in seen {
        HeadRepeats(v.id, rest, seen);
      } else if depth < w.maxDepth {
        CaptureExactly(w, child.value, depth + 1, seen + {v.id}, q);
        TrailStep(v.id, rest, seen);
      }
    } else if child.Some? && v.id !in seen && depth < w.maxDepth {
      CaptureExactly(w, child.value, depth + 1, seen + {v.id}, q);
    }
  }

  lemma HeadRepeats(id: nat, rest: seq<nat>, seen: set<nat>)
    requires id in seen
    ensures !NoRepeat([id] + rest, seen)
  {
    assert ([id] + rest)[0] == id;
  }

  lemma TrailStep(id: nat, rest: seq<nat>, seen: set<nat>)
    requires id !in seen
    ensures NoRepeat([id] + rest, seen) <==> NoRepeat(rest, seen + {id})
    ensures seen + Elements([id] + rest) == seen + {id} + Elements(rest)
  {
    var t := [id] + rest;
    assert forall i :: 1 <= i < |t| ==> t[i] == rest[i - 1];
    if NoRepeat(t, seen) {
      forall i | 0 <= i < |rest| ensures rest[i] !in seen + {id} {
        assert t[i + 1] == rest[i] && t[0] != t[i + 1];
      }
      forall i, j | 0 <= i < j < |rest| ensures rest[i] != rest[j] {
        assert t[i + 1] != t[j + 1];
      }
    }
    assert Elements(t) == {id} + Elements(rest) by {
      forall x | x in {id} + Elements(rest) ensures x in Elements(t) {
        if x == id {
          assert t[0] == x;
        } else {
          var i :| 0 <= i < |rest| && rest[i] == x;
          assert t[i + 1] == x;
        }
      }
    }
  }

  /** However cyclic the graph, no path of the tree is longer than the depth cap. */
  lemma DepthBounded(w: Walk, v: Value, path: Path)
    requires Lookup(Capture(w, v, 0, {}), path).Some?
    ensures |path| <= w.maxDepth
  {
    CaptureExactly(w, v, 0, {}, path);
  }

  /** Captured members are in the language's enumeration order at every level, so equal surfaces give
      equal trees. */
  lemma {:induction false} CaptureSorted(w: Walk, v: Value, depth: nat, seen: set<nat>)
    requires depth <= w.maxDepth
    ensures Sorted(Capture(w, v, depth, seen))
    decreases w.maxDepth - depth, 1, 0
  {
    if v.Ref? && v.id !in seen && depth < w.maxDepth && w.heap(v.id).Plain? {
      SortKeeps(w.heap(v.id).slots);
      MembersSorted(w, SortSlots(w.heap(v.id).slots), depth, seen + {v.id});
    }
  }

  /** A key that comes after all those put before it keeps the members in enumeration order. */
  lemma {:induction false} PutSorted(ms: seq<Member>, key: string, node: Node)
    requires Increasing(ms) && forall i :: 0 <= i < |ms| ==> Less(ms[i].key, key)
    ensures var r := Put(ms, key, node);
            Increasing(r) && forall i :: 0 <= i < |r| ==> r[i] == Member(key, node) || r[i] in ms
  {
    hide Less, IsIndex;
    if key != PROTO && ms != [] {
      LessTotal(ms[0].key, key);
      BeforeTotal(ms[0].key, key);
      if IsIndex(key) && Before(key, ms[0].key) {
        forall j | 0 <= j < |ms| ensures Before(key, ms[j].key) {
          if j > 0 { BeforeTransitive(key, ms[0].key, ms[j].key); }
        }
      } else {
        PutSorted(ms[1..], key, node);
        var rest := Put(ms[1..], key, node);
        forall j | 0 <= j < |rest| ensures Before(ms[0].key, rest[j].key) {
          if rest[j] in ms[1..] {
            var x :| 0 <= x < |ms[1..]| && ms[1..][x] == rest[j];
            assert ms[x + 1] == rest[j];
          }
        }
      }
    }
  }

  lemma {:induction false} MembersSorted(w: Walk, slots: seq<Slot>, depth: nat, seen: set<nat>)
    requires depth < w.maxDepth && InOrder(slots)
    ensures var ms := CaptureMembers(w, slots, depth, seen);
            && Increasing(ms)
            && (forall i :: 0 <= i < |ms| ==> Sorted(ms[i].node) && exists j :: 0 <= j < |slots| && slots[j].key == ms[i].key)
    decreases w.maxDepth - depth, 0, |slots|
  {
    hide Less, Capture, Put, Before;
    if slots != [] {
      var front, s := slots[..|slots| - 1], slots[|slots| - 1];
      MembersSorted(w, front, depth, seen);
      CaptureSorted(w, s.value, depth + 1, seen);
      var ms := CaptureMembers(w, slots, depth, seen);
      var fs := CaptureMembers(w, front, depth, seen);
      forall i | 0 <= i < |fs|
        ensures Sorted(fs[i].node) && Less(fs[i].key, s.key) && exists j :: 0 <= j < |slots| && slots[j].key == fs[i].key
      {
        var j :| 0 <= j < |front| && front[j].key == fs[i].key;
        assert slots[j].key == fs[i].key;
        assert Less(slots[j].key, slots[|slots| - 1].key);
      }
      if !Skipped(s.key, w.skipUnderscore) {
        var node := Capture(w, s.value, depth + 1, seen);
        PutSorted(fs, s.key, node);
        assert slots[|slots| - 1].key == s.key;
        forall i | 0 <= i < |ms|
          ensures Sorted(ms[i].node) && exists j :: 0 <= j < |slots| && slots[j].key == ms[i].key
        {
          assert ms[i] == Member(s.key, node) || ms[i] in fs;
        }
      }
    }
  }

  // ---------------------------------------------------------------- capture and comparison

  /** What a path of the object graph says, if it is in reach of the capture. */
  ghost function SeenAt(w: Walk, v: Value, path: Path): Option<Node> {
    if !Visible(w, v, path, 0, {}) then None
    else
      var visit := Follow(w, v, path).value;
      Some(LabelOf(w, visit.value, |path|, Elements(visit.trail)))
  }

  ghost predicate Kept(w: Walk, v: Value, w2: Walk, v2: Value, path: Path) {
    SeenAt(w, v, path).Some? ==> SeenAt(w2, v2, path).Some? && Serves(SeenAt(w, v, path).value, SeenAt(w2, v2, path).value)
  }

  /** The whole tool: comparing the captures of two object graphs lists nothing breaking exactly when
      every path in reach of the first capture, except past a key `__proto__`, is in reach of the
      second and serves its callers. */
  lemma SurfaceExactly(w: Walk, v: Value, w2: Walk, v2: Value)
    ensures Diff(Capture(w, v, 0, {}), Capture(w2, v2, 0, {}), "").breaking == []
            <==> forall path: Path :: "__proto__" !in path ==> Kept(w, v, w2, v2, path)
  {
    hide Capture, Visible, Follow, LabelOf, Lookup, Diff, Elements;
    var a, b := Capture(w, v, 0, {}), Capture(w2, v2, 0, {});
    CaptureSorted(w, v, 0, {});
    CaptureSorted(w2, v2, 0, {});
    SortedWellFormed(a);
    SortedWellFormed(b);
    BreakingExactly(a, b, "");
    forall path: Path
      ensures SurvivesAt(a, b, path) <==> (PROTO !in path ==> Kept(w, v, w2, v2, path))
    {
      SeenAtIsLabel(w, v, path);
      SeenAtIsLabel(w2, v2, path);
    }
  }

  lemma SeenAtIsLabel(w: Walk, v: Value, path: Path)
    ensures var node := Lookup(Capture(w, v, 0, {}), path);
            if PROTO in path then node.None?
            else SeenAt(w, v, path) == if node.Some? then Some(Label(node.value)) else None
  {
    hide Capture, Follow, LabelOf, Lookup, Elements;
    CaptureExactly(w, v, 0, {}, path);
    if Lookup(Capture(w, v, 0, {}), path).Some? {
      var trail := Follow(w, v, path).value.trail;
      assert {} + Elements(trail) == Elements(trail);
    }
  }

  lemma {:induction false} SkipsProto(w: Walk, v: Value, path: Path)
    requires w.skipUnderscore && PROTO in path
    ensures Follow(w, v, path).None?
    decreases |path|
  {
    if path[0] != PROTO && v.Ref? && w.heap(v.id).Plain? {
      assert path == [path[0]] + path[1..];
      var child := FindSlot(w.heap(v.id).slots, path[0]);
      if child.Some? { SkipsProto(w, child.value, path[1..]); }
    }
  }

  /** When underscored keys are skipped, as they are unless asked for, the exception is empty. */
  lemma DefaultSurfaceExactly(w: Walk, v: Value, w2: Walk, v2: Value)
    requires w.skipUnderscore
    ensures Diff(Capture(w, v, 0, {}), Capture(w2, v2, 0, {}), "").breaking == []
            <==> forall path: Path :: Kept(w, v, w2, v2, path)
  {
    hide Capture, Follow, LabelOf, Diff, Elements;
    SurfaceExactly(w, v, w2, v2);
    forall path: Path | PROTO in path ensures Kept(w, v, w2, v2, path) {
      SkipsProto(w, v, path);
    }
  }

  /** When they are not, a member `__proto__` can go unnoticed: two graphs, one with such a member and
      one without, are captured as the same tree. */
  lemma LostProtoUnnoticed(n: nat)
    ensures var w := Walk(_ => Plain([Slot(PROTO, Func(n))]), 1, false);
            var w2 := Walk(_ => Plain([]), 1, false);
            && Diff(Capture(w, Ref(0), 0, {}), Capture(w2, Ref(0), 0, {}), "") == Nothing
            && SeenAt(w, Ref(0), [PROTO]) == Some(Callable(n)) && SeenAt(w2, Ref(0), [PROTO]) == None
  {
    var w := Walk(_ => Plain([Slot(PROTO, Func(n))]), 1, false);
    var w2 := Walk(_ => Plain([]), 1, false);
    var one := [Slot(PROTO, Func(n))];
    assert one[..0] == [] && SortSlots(one) == one;
    assert [PROTO][1..] == [];
    assert Capture(w, Ref(0), 0, {}) == Object([]) && Capture(w2, Ref(0), 0, {}) == Object([]);
    assert Follow(w, Func(n), []) == Some(Visit(Func(n), []));
    assert FindSlot(one, PROTO) == Some(Func(n));
    assert Follow(w, Ref(0), [PROTO]).value == Visit(Func(n), [0] + []);
  }

  /** Array indices are listed by value, although the keys were sorted as text. */
  lemma IndicesByValue(x: string, y: string)
    ensures var w := Walk(_ => Plain([Slot("9", Simple(x)), Slot("10", Simple(y))]), 1, true);
            && SortSlots(w.heap(0).slots) == [Slot("10", Simple(y)), Slot("9", Simple(x))]
            && Capture(w, Ref(0), 0, {}) == Object([Member("9", Primitive(x)), Member("10", Primitive(y))])
  {
    var w := Walk(_ => Plain([Slot("9", Simple(x)), Slot("10", Simple(y))]), 1, true);
    var both := w.heap(0).slots;
    assert both[..1] == [Slot("9", Simple(x))] && both[..1][..0] == [];
    assert SortSlots(both[..1]) == [Slot("9", Simple(x))];
    var sorted := SortSlots(both);
    assert sorted == [Slot("10", Simple(y)), Slot("9", Simple(x))];
    assert sorted[..1] == [Slot("10", Simple(y))] && sorted[..1][..0] == [];
    assert CaptureMembers(w, sorted[..1], 0, {0}) == [Member("10", Primitive(y))];
    assert IsIndex("9") && IsIndex("10") && Before("9", "10");
    assert CaptureMembers(w, sorted, 0, {0}) == Put([Member("10", Primitive(y))], "9", Primitive(x));
    assert Capture(w, Ref(0), 0, {}) == Object(CaptureMembers(w, sorted, 0, {0})) by { assert {} + {0} == {0}; }
  }
}
