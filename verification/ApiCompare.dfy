/** The comparison of two snapshots (lib/api-snapshot.js `_walkCompare`, `compare`). */
module ApiCompare {
  import opened Results
  import opened ApiTree

  datatype Finding =
    | TypeChanged(path: string, wasKind: string, isKind: string)
    | Removed(path: string, was: string)
    | ArityDecreased(path: string, wasArity: nat, isArity: nat)
    | CtorChanged(path: string, was: string, now: string)
    | PrimitiveChanged(path: string, was: string, now: string)
    | Added(path: string, kind: string)
    | ArityIncreased(path: string, wasArity: nat, isArity: nat)

  datatype Findings = Findings(breaking: seq<Finding>, additive: seq<Finding>, typeChanged: seq<Finding>)

  const Nothing := Findings([], [], [])

  function Plus(a: Findings, b: Findings): Findings {
    Findings(a.breaking + b.breaking, a.additive + b.additive, a.typeChanged + b.typeChanged)
  }

  function ChildPath(prefix: string, key: string): string {
    if prefix != "" then prefix + "." + key else key
  }

  /** What comparing two nodes appends to the three lists, in order. */
  function Diff(was: Node, now: Node, prefix: string): Findings
    decreases was, 1
  {
    if Kind(was) != Kind(now) then
      var f := TypeChanged(prefix, Kind(was), Kind(now));
      Findings([f], [], [f])
    else
      match was
      case Object(ms) => Plus(DiffOld(was, ms, now.members, prefix), Findings([], AddedTo(ms, now.members, prefix), []))
      case _ => DiffLeaf(was, now, prefix)
  }

  function DiffLeaf(was: Node, now: Node, prefix: string): Findings
    requires Kind(was) == Kind(now)
  {
    match was
    case Callable(arity) =>
      if now.arity < arity then Findings([ArityDecreased(prefix, arity, now.arity)], [], [])
      else if now.arity > arity then Findings([], [ArityIncreased(prefix, arity, now.arity)], [])
      else Nothing
    case Instance(ctor) => if ctor != now.ctorName then Findings([CtorChanged(prefix, ctor, now.ctorName)], [], []) else Nothing
    case Primitive(t) => if t != now.valueType then Findings([PrimitiveChanged(prefix, t, now.valueType)], [], []) else Nothing
    case _ => Nothing
  }

  function DiffMember(m: Member, ns: seq<Member>, prefix: string): Findings
    decreases m.node, 2
  {
    var child := Find(ns, m.key);
    if child.None? then Findings([Removed(ChildPath(prefix, m.key), Kind(m.node))], [], [])
    else Diff(m.node, child.value, ChildPath(prefix, m.key))
  }

  function DiffOld(was: Node, ms: seq<Member>, ns: seq<Member>, prefix: string): Findings
    requires forall i :: 0 <= i < |ms| ==> ms[i].node < was
    decreases was, 0, |ms|
  {
    if ms == [] then Nothing
    else Plus(DiffOld(was, ms[..|ms| - 1], ns, prefix), DiffMember(ms[|ms| - 1], ns, prefix))
  }

  function AddedTo(ms: seq<Member>, ns: seq<Member>, prefix: string): seq<Finding> {
    if ns == [] then []
    else
      var n := ns[|ns| - 1];
      AddedTo(ms, ns[..|ns| - 1], prefix)
      + if Find(ms, n.key).None? then [Added(ChildPath(prefix, n.key), Kind(n.node))] else []
  }

  /** The three lists that the walk pushes to. */
  class Comparison {
    var breaking: seq<Finding>
    var additive: seq<Finding>
    var typeChanged: seq<Finding>

    ghost function Lists(): Findings
      reads this
    {
      Findings(breaking, additive, typeChanged)
    }

    constructor ()
      ensures Lists() == Nothing
    {
      breaking, additive, typeChanged := [], [], [];
    }

    /** `_walkCompare` */
    method WalkCompare(was: Node, now: Node, prefix: string)
      modifies this
      ensures Lists() == Plus(old(Lists()), Diff(was, now, prefix))
      decreases was, 1
    {
      if Kind(was) != Kind(now) {
        var f := TypeChanged(prefix, Kind(was), Kind(now));
        typeChanged := typeChanged + [f];
        breaking := breaking + [f];
        return;
      }
      match was {
        case Object(_) =>
          CompareMembers(was, now, prefix);
        case Callable(arity) =>
          if now.arity < arity {
            breaking := breaking + [ArityDecreased(prefix, arity, now.arity)];
          } else if now.arity > arity {
            additive := additive + [ArityIncreased(prefix, arity, now.arity)];
          }
        case Instance(ctor) =>
          if ctor != now.ctorName { breaking := breaking + [CtorChanged(prefix, ctor, now.ctorName)]; }
        case Primitive(t) =>
          if t != now.valueType { breaking := breaking + [PrimitiveChanged(prefix, t, now.valueType)]; }
        case _ =>
      }
    }

    /** The two loops over the members of two objects. */
    method CompareMembers(was: Node, now: Node, prefix: string)
      requires was.Object? && now.Object?
      modifies this
      ensures Lists() == Plus(old(Lists()), Diff(was, now, prefix))
      decreases was, 0
    {
      var ms, ns := was.members, now.members;
      for i := 0 to |ms|
        invariant Lists() == Plus(old(Lists()), DiffOld(was, ms[..i], ns, prefix))
      {
        ghost var before := Lists();
        var child := Find(ns, ms[i].key);
        if child.None? {
          breaking := breaking + [Removed(ChildPath(prefix, ms[i].key), Kind(ms[i].node))];
        } else {
          WalkCompare(ms[i].node, child.value, ChildPath(prefix, ms[i].key));
        }
        assert ms[..i + 1][..i] == ms[..i];
        assert Lists() == Plus(before, DiffMember(ms[i], ns, prefix));
        PlusAssociative(old(Lists()), DiffOld(was, ms[..i], ns, prefix), DiffMember(ms[i], ns, prefix));
      }
      assert ms[..|ms|] == ms;
      ghost var removed := Lists();
      for j := 0 to |ns|
        invariant Lists() == Plus(removed, Findings([], AddedTo(ms, ns[..j], prefix), []))
      {
        assert ns[..j + 1][..j] == ns[..j];
        if Find(ms, ns[j].key).None? {
          additive := additive + [Added(ChildPath(prefix, ns[j].key), Kind(ns[j].node))];
        }
      }
      assert ns[..|ns|] == ns;
      PlusAssociative(old(Lists()), DiffOld(was, ms, ns, prefix), Findings([], AddedTo(ms, ns, prefix), []));
    }
  }

  lemma PlusAssociative(a: Findings, b: Findings, c: Findings)
    ensures Plus(Plus(a, b), c) == Plus(a, Plus(b, c))
  {
  }
}
