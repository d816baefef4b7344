/** Component identity as the code of src/appy/appy.rs computes it. The type
    pushed onto a component's path is `component.type_id()` with `component`
    a `Box<dyn ElementT>` and `std::any::Any` in scope, so method lookup
    picks the `Any` implementation of the box itself: every component gets
    the same type identity and identity is purely positional. The rest of
    the model gives each component type its own tag, as intended. */
module Identity {

  import opened Paths
  import opened Instances
  import opened Elements
  import opened Runtime

  /** The `TypeId` of `Box<dyn ElementT>`. */
  const BoxTypeTag: TypeTag := TypeTag(2)

  /** A tree as the code identifies it: every node carries the box's type. */
  function Erase(e: Element): (r: Element)
    ensures r.tag == BoxTypeTag && r.hooks == e.hooks && |r.children| == |e.children|
    decreases e
  {
    Element(BoxTypeTag, e.hooks, seq(|e.children|, i requires 0 <= i < |e.children| => Erase(e.children[i])))
  }

  /** As written: whatever its type, a component rendered at a position
      takes over the instance the previous frame left there. If that instance
      has slot 0, the component's first hook returns the slot's value and not
      the component's own constructor's value. Slot values are untyped here,
      so this is the case of a first hook whose values have the same type as
      the slot's. */
  lemma BoxedIdentityShared(a: Appy, y: Element, parent: Path)
    requires OfType(parent, BoxTypeTag) !in a.instances && OfType(parent, BoxTypeTag) in a.previousInstances
    requires |y.hooks| > 0 && 0 in a.previousInstances[OfType(parent, BoxTypeTag)].slots
    requires a.previousInstances[OfType(parent, BoxTypeTag)].slots[0] != y.hooks[0]
    ensures var p := OfType(parent, BoxTypeTag); var r := RenderComponent(a, Erase(y), parent);
      && p in r.instances && 0 in r.instances[p].slots
      && r.instances[p].slots[0] == a.previousInstances[p].slots[0]
      && r.instances[p].slots[0] != y.hooks[0]
  {
    var p := OfType(parent, BoxTypeTag);
    RenderOwnInstance(a, Erase(y), parent);
    RenderMounts(a, Erase(y), parent);
    assert Resolve(a, p) == a.previousInstances[p];
  }

  /** As intended: a component of another type at the same position neither
      reads nor disturbs the earlier component's instance, and mounts fresh
      when nothing of its own type was there. */
  lemma TypedIdentityFresh(a: Appy, x: Element, y: Element, parent: Path)
    requires x.tag != y.tag
    requires OfType(parent, y.tag) !in a.instances && OfType(parent, y.tag) !in a.previousInstances
    ensures var r := RenderComponent(a, y, parent);
      && Resolve(r, OfType(parent, x.tag)) == Resolve(a, OfType(parent, x.tag))
      && forall k :: 0 <= k < |y.hooks| ==>
           k in Resolve(r, OfType(parent, y.tag)).slots && Resolve(r, OfType(parent, y.tag)).slots[k] == y.hooks[k]
  {
    var px := OfType(parent, x.tag);
    var py := OfType(parent, y.tag);
    var vs := Visits(y, parent);
    RenderMounts(a, y, parent);
    RenderComponentClaims(a, y, parent);
    SiblingTypeOutside(y, parent, x.tag);
    HookedAreVisited(vs);
    ResolveOutside(a, RenderComponent(a, y, parent), HookedPaths(vs), px);
    assert Resolve(a, py) == NewInstance;
  }
}
