/** The element tree a frame renders, and the structural identities a walk of
    it assigns (src/appy/appy.rs, `render_fragment` and `render_component`). */
module Elements {

  import opened Paths
  import opened Instances

  /** One reified component invocation, with its body closed over: `tag` is
      the component's type, the body issues one hook call per entry of `hooks`
      (each entry is the value that hook's constructor would produce), and
      the body returns the fragment `children`. */
  datatype Element = Element(tag: TypeTag, hooks: seq<HookValue>, children: seq<Element>)

  /** A node met by a walk, with the path it is identified by. */
  datatype Visit = Visit(path: Path, element: Element)

  /** The nodes of `e`, rendered under `parent`, in the order a depth-first
      walk enters them, each with its path: a component appends its type to
      the path it is given, and the `i`-th child of the fragment it returns is
      given that path extended by `Index(i)`. */
  function Visits(e: Element, parent: Path): (vs: seq<Visit>)
    decreases e, 0
  {
    var p := OfType(parent, e.tag);
    [Visit(p, e)] + FragmentVisits(e.children, p, 0)
  }

  /** The nodes of the children `fragment[i..]` of a component at `parent`. */
  function FragmentVisits(fragment: seq<Element>, parent: Path, i: nat): (vs: seq<Visit>)
    requires i <= |fragment|
    decreases fragment, |fragment| - i
  {
    if i == |fragment| then []
    else Visits(fragment[i], AtIndex(parent, i)) + FragmentVisits(fragment, parent, i + 1)
  }

  /** The paths of the visited nodes whose body calls at least one hook. */
  function HookedPaths(vs: seq<Visit>): (ps: set<Path>)
  {
    set v | v in vs && |v.element.hooks| > 0 :: v.path
  }

  /** The paths of all visited nodes. */
  function VisitedPaths(vs: seq<Visit>): (ps: set<Path>)
  {
    set v | v in vs :: v.path
  }

  /** No two visits share a path. */
  predicate DistinctPaths(vs: seq<Visit>)
  {
    forall j, k :: 0 <= j < k < |vs| ==> vs[j].path != vs[k].path
  }

  /** Every fragment in the tree has at most 2^32 children, so that the
      `i as i32` sibling positions are pairwise distinct. */
  predicate WellSized(e: Element)
  {
    |e.children| <= I32Modulus && forall c :: c in e.children ==> WellSized(c)
  }

  lemma HookedPathsConcat(a: seq<Visit>, b: seq<Visit>)
    ensures HookedPaths(a + b) == HookedPaths(a) + HookedPaths(b)
    ensures VisitedPaths(a + b) == VisitedPaths(a) + VisitedPaths(b)
  {
  }

  /** A component's hooked paths: its own path if it calls a hook, then
      those of its children. */
  lemma VisitsHooked(e: Element, parent: Path)
    ensures var p := OfType(parent, e.tag);
      HookedPaths(Visits(e, parent))
      == (if |e.hooks| > 0 then {p} else {}) + HookedPaths(FragmentVisits(e.children, p, 0))
  {
    var p := OfType(parent, e.tag);
    HookedPathsConcat([Visit(p, e)], FragmentVisits(e.children, p, 0));
  }

  /** Only visited paths are hooked. */
  lemma HookedAreVisited(vs: seq<Visit>)
    ensures HookedPaths(vs) <= VisitedPaths(vs)
  {
  }

  /** The first visit is the component itself, at its parent path extended by
      its type; every other visit lies strictly below it, one `Index` and one
      `TypeId` deeper at least. */
  lemma {:induction false} VisitsBelow(e: Element, parent: Path)
    ensures Visits(e, parent)[0] == Visit(OfType(parent, e.tag), e)
    ensures forall v :: v in Visits(e, parent) ==> IsPrefix(OfType(parent, e.tag), v.path)
    ensures forall k :: 0 < k < |Visits(e, parent)| ==>
      |Visits(e, parent)[k].path| >= |parent| + 3
    decreases e, 0
  {
    var p := OfType(parent, e.tag);
    var vs := Visits(e, parent);
    var rest := FragmentVisits(e.children, p, 0);
    assert vs == [Visit(p, e)] + rest;
    FragmentVisitsBelow(e.children, p, 0);
    forall v: Visit | v in vs
      ensures IsPrefix(p, v.path)
    {
      if v in rest {
        assert IsPrefix(p, v.path);
      }
    }
    forall k | 0 < k < |vs|
      ensures |vs[k].path| >= |parent| + 3
    {
      assert vs[k] == rest[k - 1];
      assert vs[k] in rest;
    }
  }

  /** Every node of the fragment `fragment[i..]` lies below `parent`, and the
      component at `parent`'s depth in its path is `Index(j)` for some `j` in
      `i..|fragment|`. */
  lemma {:induction false} FragmentVisitsBelow(fragment: seq<Element>, parent: Path, i: nat)
    requires i <= |fragment|
    ensures forall v :: v in FragmentVisits(fragment, parent, i) ==>
      && IsPrefix(parent, v.path)
      && |v.path| >= |parent| + 2
      && exists j :: i <= j < |fragment| && v.path[|parent|] == Index(AsI32(j))
    decreases fragment, |fragment| - i
  {
    if i < |fragment| {
      var q := AtIndex(parent, i);
      var p := OfType(q, fragment[i].tag);
      var head := Visits(fragment[i], q);
      var tail := FragmentVisits(fragment, parent, i + 1);
      VisitsBelow(fragment[i], q);
      FragmentVisitsBelow(fragment, parent, i + 1);
      assert FragmentVisits(fragment, parent, i) == head + tail;
      forall v: Visit | v in head + tail
        ensures IsPrefix(parent, v.path)
        ensures |v.path| >= |parent| + 2
        ensures exists j :: i <= j < |fragment| && v.path[|parent|] == Index(AsI32(j))
      {
        if v in head {
          assert IsPrefix(p, v.path);
          assert v.path[..|p|] == p;
          assert v.path[..|parent|] == p[..|parent|] == parent;
          assert v.path[|parent|] == p[|parent|] == Index(AsI32(i));
        } else {
          assert v in tail;
        }
      }
    }
  }

  /** A node of another type at the same position is not part of `e`'s
      subtree: every path in it extends `e`'s own. */
  lemma SiblingTypeOutside(e: Element, parent: Path, t: TypeTag)
    requires t != e.tag
    ensures OfType(parent, t) !in VisitedPaths(Visits(e, parent))
  {
    var p := OfType(parent, e.tag);
    VisitsBelow(e, parent);
    forall v | v in Visits(e, parent)
      ensures v.path != OfType(parent, t)
    {
      if |v.path| == |p| {
        assert v.path == v.path[..|p|] == p;
        assert v.path[|parent|] != OfType(parent, t)[|parent|];
      }
    }
  }

  lemma DistinctConcat(a: seq<Visit>, b: seq<Visit>)
    requires DistinctPaths(a) && DistinctPaths(b)
    requires forall j, k :: 0 <= j < |a| && 0 <= k < |b| ==> a[j].path != b[k].path
    ensures DistinctPaths(a + b)
  {
    var ab := a + b;
    forall j, k | 0 <= j < k < |ab|
      ensures ab[j].path != ab[k].path
    {
      if k < |a| {
        assert ab[j] == a[j] && ab[k] == a[k];
      } else if j >= |a| {
        assert ab[j] == b[j - |a|] && ab[k] == b[k - |a|];
      } else {
        assert ab[j] == a[j] && ab[k] == b[k - |a|];
      }
    }
  }

  /** Paths are unique within one frame by construction: in a tree whose
      fragments have at most 2^32 children, no two nodes share a path. */
  lemma {:induction false} VisitsDistinct(e: Element, parent: Path)
    requires WellSized(e)
    ensures DistinctPaths(Visits(e, parent))
    decreases e, 0
  {
    var p := OfType(parent, e.tag);
    var rest := FragmentVisits(e.children, p, 0);
    FragmentVisitsDistinct(e.children, p, 0);
    FragmentVisitsBelow(e.children, p, 0);
    forall k | 0 <= k < |rest|
      ensures Visit(p, e).path != rest[k].path
    {
      assert rest[k] in rest;
    }
    DistinctConcat([Visit(p, e)], rest);
  }

  /** The nodes of the fragment `fragment[i..]` have pairwise distinct paths. */
  lemma {:induction false} FragmentVisitsDistinct(fragment: seq<Element>, parent: Path, i: nat)
    requires i <= |fragment| <= I32Modulus
    requires forall c :: c in fragment ==> WellSized(c)
    ensures DistinctPaths(FragmentVisits(fragment, parent, i))
    decreases fragment, |fragment| - i
  {
    if i < |fragment| {
      var q := AtIndex(parent, i);
      var head := Visits(fragment[i], q);
      var tail := FragmentVisits(fragment, parent, i + 1);
      VisitsDistinct(fragment[i], q);
      FragmentVisitsDistinct(fragment, parent, i + 1);
      VisitsBelow(fragment[i], q);
      FragmentVisitsBelow(fragment, parent, i + 1);
      forall j, k | 0 <= j < |head| && 0 <= k < |tail|
        ensures head[j].path != tail[k].path
      {
        var p := OfType(q, fragment[i].tag);
        var x := head[j].path;
        assert head[j] in head;
        assert x[..|p|] == p;
        assert x[|parent|] == p[|parent|] == Index(AsI32(i));
        assert tail[k] in tail;
        var m :| i + 1 <= m < |fragment| && tail[k].path[|parent|] == Index(AsI32(m));
        AsI32Injective(i, m);
      }
      DistinctConcat(head, tail);
    }
  }

  lemma DistinctSplit(a: seq<Visit>, b: seq<Visit>)
    requires DistinctPaths(a + b)
    ensures DistinctPaths(a) && DistinctPaths(b)
    ensures VisitedPaths(a) !! VisitedPaths(b)
  {
    var ab := a + b;
    forall j, k | 0 <= j < k < |a|
      ensures a[j].path != a[k].path
    {
      assert ab[j] == a[j] && ab[k] == a[k];
    }
    forall j, k | 0 <= j < k < |b|
      ensures b[j].path != b[k].path
    {
      assert ab[|a| + j] == b[j] && ab[|a| + k] == b[k];
    }
    forall j, k | 0 <= j < |a| && 0 <= k < |b|
      ensures a[j].path != b[k].path
    {
      assert ab[j] == a[j] && ab[|a| + k] == b[k];
    }
  }

  /** The `j`-th child's subtree is part of the walk of a fragment's suffix
      starting at or before `j`. */
  lemma {:induction false} FragmentContains(fragment: seq<Element>, parent: Path, i: nat, j: nat)
    requires i <= j < |fragment|
    ensures Visit(OfType(AtIndex(parent, j), fragment[j].tag), fragment[j]) in FragmentVisits(fragment, parent, i)
    decreases j - i
  {
    VisitsBelow(fragment[j], AtIndex(parent, j));
    if i < j {
      FragmentContains(fragment, parent, i + 1, j);
    }
  }

  /** Path construction: the `i`-th child of a component at path `p` is
      visited at `p + [Index(i), TypeId(t)]`, `t` being the child's type (for
      any position an `i32` can hold); so the root is at `[TypeId(root)]` and
      each level of nesting adds two components. */
  lemma ChildPath(e: Element, parent: Path, i: nat)
    requires i < |e.children| && i <= I32Max
    ensures var p := OfType(parent, e.tag);
      Visit(p + [Index(i), TypeId(e.children[i].tag)], e.children[i]) in Visits(e, parent)
  {
    var p := OfType(parent, e.tag);
    FragmentContains(e.children, p, 0, i);
    AsI32Exact(i);
    assert OfType(AtIndex(p, i), e.children[i].tag) == p + [Index(i), TypeId(e.children[i].tag)];
  }
}
