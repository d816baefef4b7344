/** The per-frame reconciliation engine of src/appy/appy.rs: the `Appy` state,
    the claiming of component instances by hook calls, the recursive render
    walk and the frame driver. The ambient `environmental!` binding of the
    source is replaced by passing the state explicitly. */
module Runtime {

  import opened Results
  import opened Paths
  import opened Instances
  import opened Elements
  import opened Contexts

  /** One lifecycle step of the walk: an instance's `pre_render`, the
      invocation of a component body at a path, an instance's `post_render`.
      The callbacks themselves are not modelled; the `trace` records that and
      when they were run. */
  datatype Lifecycle = PreRender(path: Path) | Body(visit: Visit) | PostRender(path: Path)
  {
    function EventPath(): (p: Path)
    {
      match this
      case PreRender(p) => p
      case Body(v) => v.path
      case PostRender(p) => p
    }
  }

  /** An application event handler (`Rc<dyn Fn(&AppEvent)>`), by identity. */
  datatype EventHandler = EventHandler(id: nat)

  /** A `HookRef`: the slot `index` of the instance at `path`, and the value
      that slot holds when the reference is handed out. */
  datatype HookRef = HookRef(path: Path, index: nat, value: HookValue)

  /** The type of the framework's root element (`RootElement`). */
  const RootElementTag: TypeTag := TypeTag(0)
  /** The type of the application context (`AppContext`). */
  const AppContextTag: TypeTag := TypeTag(1)

  /** The `Appy` struct. `root` stands for the root function by the fragment
      it returns; `trace` is the lifecycle record of the current frame. */
  datatype Appy = Appy(
    instances: map<Path, Instance>,
    previousInstances: map<Path, Instance>,
    root: seq<Element>,
    appContext: Option<ContextValue>,
    currentHookIndex: nat,
    currentComponentPath: Option<Path>,
    appEventHandlers: seq<EventHandler>,
    dirty: bool,
    contexts: ContextMap,
    trace: seq<Lifecycle>)

  /** No path is registered in both generations at once. */
  predicate Disjoint(a: Appy)
  {
    a.instances.Keys !! a.previousInstances.Keys
  }

  /** The instance a claim of `p` yields: the current one, else the one of the
      previous generation, else a fresh one. */
  function Resolve(a: Appy, p: Path): (ci: Instance)
  {
    if p in a.instances then a.instances[p]
    else if p in a.previousInstances then a.previousInstances[p]
    else NewInstance
  }

  /** `k` has the same entry, or is absent, in both maps. */
  predicate SameEntry<K, V(==)>(m: map<K, V>, m': map<K, V>, k: K)
  {
    (k in m <==> k in m') && (k in m ==> m'[k] == m[k])
  }

  /** Outside `changed`, neither generation of the registry differs between
      `a` and `r`. */
  ghost predicate RegistryFrame(a: Appy, r: Appy, changed: set<Path>)
  {
    forall q :: q !in changed ==>
      SameEntry(a.instances, r.instances, q) && SameEntry(a.previousInstances, r.previousInstances, q)
  }

  /** `Appy::new(root)`: empty registries, no current component, no context. */
  function New(root: seq<Element>): (r: Appy)
    ensures r.root == root && r.appContext == None
    ensures r.instances == map[] && r.previousInstances == map[] && Disjoint(r)
    ensures r.currentComponentPath == None && r.currentHookIndex == 0
    ensures !r.dirty && r.contexts == map[] && r.appEventHandlers == []
  {
    Appy(map[], map[], root, None, 0, None, [], false, map[], [])
  }

  /** The registry half of `with_current_component_instance`: the current
      path's instance is taken from the current generation if present, else
      moved out of the previous one, else created. */
  function ClaimCurrentInstance(a: Appy): (r: Appy)
    requires a.currentComponentPath.Some?
    ensures var p := a.currentComponentPath.value;
      && p in r.instances
      && r.instances[p] == Resolve(a, p)
      && (p in a.instances ==> r == a)
      && r.previousInstances == (if p in a.instances then a.previousInstances else a.previousInstances - {p})
      && RegistryFrame(a, r, {p})
    ensures forall q :: Resolve(r, q) == Resolve(a, q)
    ensures Disjoint(a) ==> Disjoint(r)
    ensures r == a.(instances := r.instances, previousInstances := r.previousInstances)
  {
    var p := a.currentComponentPath.value;
    if p in a.instances then a
    else if p in a.previousInstances then
      a.(instances := a.instances[p := a.previousInstances[p]],
         previousInstances := a.previousInstances - {p})
    else
      a.(instances := a.instances[p := NewInstance])
  }

  /** `with_current_component_instance(f)`: claims the current path's
      instance and lets `f` update it; `f`'s second result is returned. */
  function WithCurrentComponentInstance<T>(a: Appy, f: Instance -> (Instance, T)): (r: (Appy, T))
    requires a.currentComponentPath.Some?
    ensures var p := a.currentComponentPath.value;
      && p in r.0.instances
      && (r.0.instances[p], r.1) == f(Resolve(a, p))
      && r.0.previousInstances == (if p in a.instances then a.previousInstances else a.previousInstances - {p})
      && RegistryFrame(a, r.0, {p})
    ensures Disjoint(a) ==> Disjoint(r.0)
    ensures r.0 == a.(instances := r.0.instances, previousInstances := r.0.previousInstances)
  {
    var claimed := ClaimCurrentInstance(a);
    var p := a.currentComponentPath.value;
    var (ci, t) := f(claimed.instances[p]);
    (claimed.(instances := claimed.instances[p := ci]), t)
  }

  /** `use_hook_ref(ctor)`: hands out slot `current_hook_index` of the current
      instance and advances the counter by one. The slot keeps the value it
      had in the instance being claimed; if it had none, it receives the
      constructor's value. */
  function UseHookRef(a: Appy, ctor: HookValue): (r: (Appy, HookRef))
    requires a.currentComponentPath.Some?
    ensures var p := a.currentComponentPath.value;
      var i := a.currentHookIndex;
      var before := Resolve(a, p);
      && r.0.currentHookIndex == i + 1
      && r.1.path == p && r.1.index == i
      && r.1.value == (if i in before.slots then before.slots[i] else ctor)
      && p in r.0.instances
      && Extends(before, r.0.instances[p])
      && r.0.instances[p].slots.Keys == before.slots.Keys + {i}
      && r.0.instances[p].slots[i] == r.1.value
      && r.0.previousInstances == (if p in a.instances then a.previousInstances else a.previousInstances - {p})
      && RegistryFrame(a, r.0, {p})
    ensures Disjoint(a) ==> Disjoint(r.0)
    ensures r.0 == a.(instances := r.0.instances, previousInstances := r.0.previousInstances,
                      currentHookIndex := r.0.currentHookIndex)
  {
    var i := a.currentHookIndex;
    var counted := a.(currentHookIndex := i + 1);
    var (claimed, v) := WithCurrentComponentInstance(counted, ci => CreateHookRef(ci, i, ctor));
    (claimed, HookRef(a.currentComponentPath.value, i, v))
  }

  /** A component body's hook calls, in order, one per constructor value in
      `ctors`; returns the hook references handed out. */
  function RunHooks(a: Appy, ctors: seq<HookValue>): (r: (Appy, seq<HookRef>))
    requires a.currentComponentPath.Some?
    decreases |ctors|
    ensures |r.1| == |ctors|
    ensures r.0.currentHookIndex == a.currentHookIndex + |ctors|
    ensures r.0 == a.(instances := r.0.instances, previousInstances := r.0.previousInstances,
                      currentHookIndex := r.0.currentHookIndex)
  {
    if |ctors| == 0 then (a, [])
    else
      var (a1, first) := UseHookRef(a, ctors[0]);
      var (a2, rest) := RunHooks(a1, ctors[1..]);
      (a2, [first] + rest)
  }

  /** The registry effect of a body's hook calls: only the current path's
      entry changes; a body with at least one hook call leaves its instance in
      the current generation, and one without any leaves the state as it was. */
  lemma {:induction false} RunHooksRegistry(a: Appy, ctors: seq<HookValue>)
    requires a.currentComponentPath.Some?
    ensures var r := RunHooks(a, ctors).0; var p := a.currentComponentPath.value;
      && RegistryFrame(a, r, {p})
      && (|ctors| == 0 ==> r == a)
      && (|ctors| > 0 ==> p in r.instances)
      && r.previousInstances == (if |ctors| == 0 || p in a.instances then a.previousInstances else a.previousInstances - {p})
      && (Disjoint(a) ==> Disjoint(r))
      && Extends(Resolve(a, p), Resolve(r, p))
    decreases |ctors|
  {
    if |ctors| > 0 {
      var p := a.currentComponentPath.value;
      var a1 := UseHookRef(a, ctors[0]).0;
      RunHooksRegistry(a1, ctors[1..]);
      var r := RunHooks(a1, ctors[1..]).0;
      assert RunHooks(a, ctors).0 == r;
      assert Resolve(a1, p) == a1.instances[p];
      assert Extends(Resolve(a, p), Resolve(a1, p));
      assert Extends(Resolve(a1, p), Resolve(r, p));
      if |ctors| > 1 {
        assert p in r.instances;
      } else {
        assert r == a1;
      }
    }
  }

  /** No instance state reachable through the registry is lost or altered by
      a body's hook calls; it is only extended. */
  lemma RunHooksExtends(a: Appy, ctors: seq<HookValue>)
    requires a.currentComponentPath.Some?
    ensures var r := RunHooks(a, ctors).0;
      forall q :: Extends(Resolve(a, q), Resolve(r, q))
  {
    var r := RunHooks(a, ctors).0;
    var p := a.currentComponentPath.value;
    RunHooksRegistry(a, ctors);
    forall q
      ensures Extends(Resolve(a, q), Resolve(r, q))
    {
      if q != p {
        assert SameEntry(a.instances, r.instances, q);
        assert SameEntry(a.previousInstances, r.previousInstances, q);
        assert Resolve(a, q) == Resolve(r, q);
      }
    }
  }

  /** The slots of the current path's instance after a body's hook calls are
      those it had in the claimed instance plus the indices
      `current_hook_index ..< current_hook_index + |ctors|`. */
  lemma {:induction false} RunHooksSlotKeys(a: Appy, ctors: seq<HookValue>)
    requires a.currentComponentPath.Some?
    ensures var r := RunHooks(a, ctors).0;
      var p := a.currentComponentPath.value;
      var h := a.currentHookIndex;
      forall k :: k in Resolve(r, p).slots <==> k in Resolve(a, p).slots || h <= k < h + |ctors|
    decreases |ctors|
  {
    if |ctors| > 0 {
      var p := a.currentComponentPath.value;
      var a1 := UseHookRef(a, ctors[0]).0;
      RunHooksSlotKeys(a1, ctors[1..]);
      assert RunHooks(a, ctors).0 == RunHooks(a1, ctors[1..]).0;
      SlotKeysCons(Resolve(a, p), Resolve(a1, p), Resolve(RunHooks(a, ctors).0, p), a.currentHookIndex, |ctors|);
    }
  }

  /** One hook call's slot in front of those of the rest of a body's calls. */
  lemma SlotKeysCons(before: Instance, mid: Instance, after: Instance, h: nat, n: nat)
    requires n > 0
    requires mid.slots.Keys == before.slots.Keys + {h}
    requires forall k :: k in after.slots <==> k in mid.slots || h + 1 <= k < h + n
    ensures forall k :: k in after.slots <==> k in before.slots || h <= k < h + n
  {
  }

  /** Hook slots by call order: the `k`-th of the references `refs`, handed
      out for the constructors `ctors` from hook index `h` on, is slot `h + k`
      of path `p`; in the instance `after` that slot holds the reference's
      value, which is the slot's value in `before` if it had one and
      otherwise `ctors[k]`. */
  ghost predicate SlotsFrom(refs: seq<HookRef>, p: Path, h: nat, before: Instance, after: Instance,
                            ctors: seq<HookValue>)
  {
    && |refs| == |ctors|
    && forall k :: 0 <= k < |refs| ==>
      && refs[k].path == p
      && refs[k].index == h + k
      && refs[k].index in after.slots
      && after.slots[refs[k].index] == refs[k].value
      && refs[k].value == (if refs[k].index in before.slots then before.slots[refs[k].index] else ctors[k])
  }

  /** One hook call in front of the rest of a body's hook calls. */
  lemma SlotsCons(first: HookRef, rest: seq<HookRef>, p: Path, h: nat,
                  before: Instance, mid: Instance, after: Instance, ctors: seq<HookValue>)
    requires |ctors| > 0
    requires first.path == p && first.index == h && h in mid.slots && mid.slots[h] == first.value
    requires first.value == (if h in before.slots then before.slots[h] else ctors[0])
    requires mid.slots.Keys == before.slots.Keys + {h}
    requires Extends(before, mid) && Extends(mid, after)
    requires SlotsFrom(rest, p, h + 1, mid, after, ctors[1..])
    ensures SlotsFrom([first] + rest, p, h, before, after, ctors)
  {
    var refs := [first] + rest;
    forall k | 0 <= k < |refs|
      ensures refs[k].path == p
      ensures refs[k].index == h + k
      ensures refs[k].index in after.slots
      ensures after.slots[refs[k].index] == refs[k].value
      ensures refs[k].value == (if refs[k].index in before.slots then before.slots[refs[k].index] else ctors[k])
    {
      if k > 0 {
        assert refs[k] == rest[k - 1];
        assert ctors[1..][k - 1] == ctors[k];
        assert (h + k in mid.slots) == (h + k in before.slots);
      }
    }
  }

  /** The hook references a body's calls hand out, by call order (see
      `SlotsFrom`): the `k`-th is slot `current_hook_index + k` of the
      current path's instance. */
  lemma {:induction false} RunHooksSlots(a: Appy, ctors: seq<HookValue>)
    requires a.currentComponentPath.Some?
    ensures var r := RunHooks(a, ctors); var p := a.currentComponentPath.value;
      SlotsFrom(r.1, p, a.currentHookIndex, Resolve(a, p), Resolve(r.0, p), ctors)
    decreases |ctors|
  {
    if |ctors| > 0 {
      var p := a.currentComponentPath.value;
      var step := UseHookRef(a, ctors[0]);
      var tail := RunHooks(step.0, ctors[1..]);
      assert RunHooks(a, ctors) == (tail.0, [step.1] + tail.1);
      RunHooksSlots(step.0, ctors[1..]);
      RunHooksRegistry(step.0, ctors[1..]);
      SlotsCons(step.1, tail.1, p, a.currentHookIndex, Resolve(a, p), Resolve(step.0, p), Resolve(tail.0, p), ctors);
    }
  }

  lemma FrameTransitive(a: Appy, b: Appy, c: Appy, s: set<Path>, t: set<Path>)
    requires RegistryFrame(a, b, s) && RegistryFrame(b, c, t)
    ensures RegistryFrame(a, c, s + t)
  {
  }

  /** The state in which a component body runs: `pre_render` is recorded if
      the path already has an instance, then the body starts with its path
      current and the hook counter at 0. */
  function Enter(a: Appy, e: Element, p: Path): (r: Appy)
    ensures r.instances == a.instances && r.previousInstances == a.previousInstances
    ensures r.currentComponentPath == Some(p) && r.currentHookIndex == 0
    ensures r.trace == a.trace + (if p in a.instances then [PreRender(p)] else []) + [Body(Visit(p, e))]
  {
    var entered := if p in a.instances then a.(trace := a.trace + [PreRender(p)]) else a;
    entered.(currentComponentPath := Some(p), currentHookIndex := 0,
             trace := entered.trace + [Body(Visit(p, e))])
  }

  /** The part of `render_component` around the body: the body runs in the
      state `Enter` sets up, then the current path is cleared. */
  function RenderBody(a: Appy, e: Element, p: Path): (r: Appy)
  {
    RunHooks(Enter(a, e, p), e.hooks).0.(currentComponentPath := None)
  }

  /** `render_component`: the component's path is its parent's extended by its
      type; its body runs, then the fragment it returned is rendered below
      it, then `post_render` runs if the path has an instance by then. */
  function RenderComponent(a: Appy, e: Element, parent: Path): (r: Appy)
    decreases e, 0
  {
    var p := OfType(parent, e.tag);
    Leave(RenderFragment(RenderBody(a, e, p), e.children, p, 0), p)
  }

  /** The end of `render_component`: `post_render` is recorded if the path
      has an instance once the children are rendered. */
  function Leave(w: Appy, p: Path): (r: Appy)
    ensures r.trace == w.trace + (if p in w.instances then [PostRender(p)] else [])
    ensures r == w.(trace := r.trace)
  {
    if p in w.instances then w.(trace := w.trace + [PostRender(p)]) else w
  }

  /** `render_fragment`, from the `i`-th child on: the `i`-th child is rendered
      at its parent's path extended by `Index(i as i32)`. */
  function RenderFragment(a: Appy, fragment: seq<Element>, parent: Path, i: nat): (r: Appy)
    requires i <= |fragment|
    decreases fragment, |fragment| - i
  {
    if i == |fragment| then a
    else RenderFragment(RenderComponent(a, fragment[i], AtIndex(parent, i)), fragment, parent, i + 1)
  }

  /** Body bracketing: `pre_render` is recorded exactly when the path
      already had an instance, then the body; the body leaves the current path
      cleared and the hook counter at the number of hook calls it made. */
  lemma RenderBodyTrace(a: Appy, e: Element, p: Path)
    ensures var r := RenderBody(a, e, p);
      && r.trace == a.trace + (if p in a.instances then [PreRender(p)] else []) + [Body(Visit(p, e))]
      && r.currentComponentPath == None
      && r.currentHookIndex == |e.hooks|
      && r == a.(instances := r.instances, previousInstances := r.previousInstances,
                 currentHookIndex := r.currentHookIndex, currentComponentPath := None,
                 trace := r.trace)
  {
  }

  /** Hook order within a body: its `k`-th hook call lands in slot `k` of its
      path's instance, which keeps the value it had there or, on first mount,
      holds the `k`-th constructor's value. */
  lemma RenderBodySlots(a: Appy, e: Element, p: Path)
    ensures var r := RenderBody(a, e, p);
      forall k :: 0 <= k < |e.hooks| ==>
        && k in Resolve(r, p).slots
        && Resolve(r, p).slots[k]
           == (if k in Resolve(a, p).slots then Resolve(a, p).slots[k] else e.hooks[k])
  {
    var current := Enter(a, e, p);
    var ran := RunHooks(current, e.hooks);
    var r := RenderBody(a, e, p);
    assert Resolve(current, p) == Resolve(a, p);
    assert Resolve(r, p) == Resolve(ran.0, p);
    RunHooksSlots(current, e.hooks);
    forall k | 0 <= k < |e.hooks|
      ensures k in Resolve(r, p).slots
      ensures Resolve(r, p).slots[k]
              == (if k in Resolve(a, p).slots then Resolve(a, p).slots[k] else e.hooks[k])
    {
      assert ran.1[k].index == k;
    }
  }

  /** `r`'s registry arises from `a`'s by claiming the paths in `claimed`:
      they join the current generation and leave the previous one unless
      they were current already, no other entry changes, the generations stay
      disjoint, and no instance state is lost or altered, only extended. */
  ghost predicate Claims(a: Appy, r: Appy, claimed: set<Path>)
  {
    && r.instances.Keys == a.instances.Keys + claimed
    && r.previousInstances.Keys == a.previousInstances.Keys - (claimed - a.instances.Keys)
    && (Disjoint(a) ==> Disjoint(r))
    && RegistryFrame(a, r, claimed)
    && (forall q :: Extends(Resolve(a, q), Resolve(r, q)))
  }

  lemma ClaimsCompose(a: Appy, b: Appy, c: Appy, s: set<Path>, t: set<Path>)
    requires Claims(a, b, s) && Claims(b, c, t)
    ensures Claims(a, c, s + t)
  {
    FrameTransitive(a, b, c, s, t);
    forall q
      ensures Extends(Resolve(a, q), Resolve(c, q))
    {
      ExtendsTransitive(Resolve(a, q), Resolve(b, q), Resolve(c, q));
    }
  }

  lemma ClaimsNothing(a: Appy, r: Appy)
    requires r.instances == a.instances && r.previousInstances == a.previousInstances
    ensures Claims(a, r, {})
  {
    assert forall q :: Resolve(a, q) == Resolve(r, q);
  }

  /** The facts `RunHooksRegistry` and `RunHooksExtends` establish amount to
      claiming the current path when at least one hook is called. */
  lemma ClaimsCurrent(a: Appy, r: Appy, p: Path, hooked: bool)
    requires RegistryFrame(a, r, {p})
    requires !hooked ==> r.instances == a.instances && r.previousInstances == a.previousInstances
    requires hooked ==> p in r.instances
    requires r.previousInstances == (if !hooked || p in a.instances then a.previousInstances else a.previousInstances - {p})
    requires Disjoint(a) ==> Disjoint(r)
    requires forall q :: Extends(Resolve(a, q), Resolve(r, q))
    ensures Claims(a, r, if hooked then {p} else {})
  {
    var claimed := if hooked then {p} else {};
    forall q
      ensures q in r.instances <==> q in a.instances || q in claimed
    {
      if q != p {
        assert SameEntry(a.instances, r.instances, q);
      }
    }
  }

  /** The registry effect of a body's hook calls, as a claim. */
  lemma RunHooksClaims(a: Appy, ctors: seq<HookValue>)
    requires a.currentComponentPath.Some?
    ensures Claims(a, RunHooks(a, ctors).0, if |ctors| > 0 then {a.currentComponentPath.value} else {})
  {
    RunHooksRegistry(a, ctors);
    RunHooksExtends(a, ctors);
    ClaimsCurrent(a, RunHooks(a, ctors).0, a.currentComponentPath.value, |ctors| > 0);
  }

  /** A claim between two states carries over to states with the same
      registries. */
  lemma ClaimsBetween(a: Appy, b: Appy, c: Appy, r: Appy, claimed: set<Path>)
    requires b.instances == a.instances && b.previousInstances == a.previousInstances
    requires Claims(b, c, claimed)
    requires r.instances == c.instances && r.previousInstances == c.previousInstances
    ensures Claims(a, r, claimed)
  {
    assert forall q :: Resolve(a, q) == Resolve(b, q) && Resolve(r, q) == Resolve(c, q);
  }

  /** The registry effect of a body: an instance is claimed for its path
      exactly when the body calls a hook (see `Claims`). */
  lemma RenderBodyClaims(a: Appy, e: Element, p: Path)
    ensures Claims(a, RenderBody(a, e, p), if |e.hooks| > 0 then {p} else {})
  {
    var current := Enter(a, e, p);
    RunHooksClaims(current, e.hooks);
    ClaimsBetween(a, current, RunHooks(current, e.hooks).0, RenderBody(a, e, p),
                  if |e.hooks| > 0 then {p} else {});
  }

  /** The registry effect of a walk: exactly the paths of the visited nodes
      that call a hook are claimed (see `Claims`). */
  lemma {:induction false} RenderComponentClaims(a: Appy, e: Element, parent: Path)
    ensures Claims(a, RenderComponent(a, e, parent), HookedPaths(Visits(e, parent)))
    decreases e, 0
  {
    var p := OfType(parent, e.tag);
    var b := RenderBody(a, e, p);
    var w := RenderFragment(b, e.children, p, 0);
    RenderBodyClaims(a, e, p);
    RenderFragmentClaims(b, e.children, p, 0);
    VisitsHooked(e, parent);
    ClaimsThenRecord(a, b, w, RenderComponent(a, e, parent), if |e.hooks| > 0 then {p} else {},
                     HookedPaths(FragmentVisits(e.children, p, 0)));
  }

  /** Claims by two steps followed by a step that leaves the registry alone. */
  lemma ClaimsThenRecord(a: Appy, b: Appy, w: Appy, r: Appy, s: set<Path>, t: set<Path>)
    requires Claims(a, b, s) && Claims(b, w, t)
    requires r.instances == w.instances && r.previousInstances == w.previousInstances
    ensures Claims(a, r, s + t)
  {
    ClaimsCompose(a, b, w, s, t);
    ClaimsNothing(w, r);
    ClaimsCompose(a, w, r, s + t, {});
    assert s + t + {} == s + t;
  }

  /** `RenderComponentClaims` for the children `fragment[i..]`. */
  lemma {:induction false} RenderFragmentClaims(a: Appy, fragment: seq<Element>, parent: Path, i: nat)
    requires i <= |fragment|
    ensures Claims(a, RenderFragment(a, fragment, parent, i), HookedPaths(FragmentVisits(fragment, parent, i)))
    decreases fragment, |fragment| - i
  {
    if i < |fragment| {
      var q := AtIndex(parent, i);
      var c := RenderComponent(a, fragment[i], q);
      RenderComponentClaims(a, fragment[i], q);
      RenderFragmentClaims(c, fragment, parent, i + 1);
      ClaimsCompose(a, c, RenderFragment(a, fragment, parent, i), HookedPaths(Visits(fragment[i], q)),
                    HookedPaths(FragmentVisits(fragment, parent, i + 1)));
      HookedPathsConcat(Visits(fragment[i], q), FragmentVisits(fragment, parent, i + 1));
    } else {
      ClaimsNothing(a, a);
    }
  }

  /** The visits recorded by the body events of a trace, in order. */
  function Bodies(t: seq<Lifecycle>): (vs: seq<Visit>)
  {
    if |t| == 0 then []
    else (if t[0].Body? then [t[0].visit] else []) + Bodies(t[1..])
  }

  lemma {:induction false} BodiesConcat(s: seq<Lifecycle>, t: seq<Lifecycle>)
    ensures Bodies(s + t) == Bodies(s) + Bodies(t)
  {
    if |s| > 0 {
      assert (s + t)[0] == s[0];
      assert (s + t)[1..] == s[1..] + t;
      BodiesConcat(s[1..], t);
    } else {
      assert s + t == t;
    }
  }

  /** Every event of `events` concerns a path below `p`, at least `extra`
      components deeper. */
  ghost predicate Below(events: seq<Lifecycle>, p: Path, extra: nat)
  {
    forall k :: 0 <= k < |events| ==>
      IsPrefix(p, events[k].EventPath()) && |events[k].EventPath()| >= |p| + extra
  }

  /** The events a call appended to the trace, which it only extends. */
  function Added(a: Appy, r: Appy): (events: seq<Lifecycle>)
    requires |a.trace| <= |r.trace|
  {
    r.trace[|a.trace|..]
  }

  ghost predicate Extended(a: Appy, r: Appy)
  {
    |a.trace| <= |r.trace| && r.trace == a.trace + Added(a, r)
  }

  lemma ExtendedCompose(a: Appy, b: Appy, c: Appy)
    requires Extended(a, b) && Extended(b, c)
    ensures Extended(a, c) && Added(a, c) == Added(a, b) + Added(b, c)
  {
    assert c.trace == a.trace + (Added(a, b) + Added(b, c));
  }

  /** The events of one component: its own `pre_render` (if any) and body
      events, then those of its children, then its own `post_render` (if
      any). */
  ghost predicate OwnEvents(p: Path, pre: seq<Lifecycle>, post: seq<Lifecycle>)
  {
    (pre == [] || pre == [PreRender(p)]) && (post == [] || post == [PostRender(p)])
  }

  lemma SandwichBodies(p: Path, e: Element, pre: seq<Lifecycle>, inner: seq<Lifecycle>, post: seq<Lifecycle>)
    requires OwnEvents(p, pre, post)
    ensures Bodies(pre + [Body(Visit(p, e))] + inner + post) == [Visit(p, e)] + Bodies(inner)
  {
    var own := pre + [Body(Visit(p, e))];
    BodiesConcat(pre, [Body(Visit(p, e))]);
    BodiesConcat(own, inner);
    BodiesConcat(own + inner, post);
    assert Bodies(pre) == [] by {
      if pre != [] {
        assert Bodies(pre) == [] + Bodies(pre[1..]);
      }
    }
    assert Bodies(post) == [] by {
      if post != [] {
        assert Bodies(post) == [] + Bodies(post[1..]);
      }
    }
    assert Bodies([Body(Visit(p, e))]) == [Visit(p, e)] + Bodies([]);
  }

  lemma SandwichBelow(p: Path, e: Element, pre: seq<Lifecycle>, inner: seq<Lifecycle>, post: seq<Lifecycle>)
    requires OwnEvents(p, pre, post)
    requires Below(inner, p, 2)
    ensures Below(pre + [Body(Visit(p, e))] + inner + post, p, 0)
  {
    var own := pre + [Body(Visit(p, e))];
    var added := own + inner + post;
    forall k | 0 <= k < |added|
      ensures IsPrefix(p, added[k].EventPath())
    {
      if k < |own| {
        assert added[k] == own[k];
      } else if k < |own| + |inner| {
        assert added[k] == inner[k - |own|];
      } else {
        assert added[k] == post[k - |own| - |inner|];
      }
    }
  }

  /** How a component's trace is put together: its own `pre_render` and body
      events, then those of its children, then its own `post_render`. */
  lemma TraceSandwich(a: Appy, b: Appy, w: Appy, r: Appy, p: Path, e: Element,
                      pre: seq<Lifecycle>, post: seq<Lifecycle>)
    requires OwnEvents(p, pre, post)
    requires b.trace == a.trace + pre + [Body(Visit(p, e))]
    requires Extended(b, w) && Below(Added(b, w), p, 2)
    requires r.trace == w.trace + post
    ensures Extended(a, r) && |Added(a, r)| > 0
    ensures Added(a, r) == pre + [Body(Visit(p, e))] + Added(b, w) + post
    ensures Bodies(Added(a, r)) == [Visit(p, e)] + Bodies(Added(b, w))
    ensures Below(Added(a, r), p, 0)
  {
    var inner := Added(b, w);
    var added := pre + [Body(Visit(p, e))] + inner + post;
    assert r.trace == a.trace + added;
    assert Added(a, r) == added;
    SandwichBodies(p, e, pre, inner, post);
    SandwichBelow(p, e, pre, inner, post);
  }

  /** The walk's trace: it only appends; the body events it appends are those
      of the visits of `Visits`, in the same order, so a node's body runs with
      exactly the path `Visits` assigns it; and every event concerns the
      component's own path or one below it. */
  lemma {:induction false} RenderComponentTrace(a: Appy, e: Element, parent: Path)
    ensures var r := RenderComponent(a, e, parent);
      && Extended(a, r) && |Added(a, r)| > 0
      && Bodies(Added(a, r)) == Visits(e, parent)
      && Below(Added(a, r), OfType(parent, e.tag), 0)
    decreases e, 0
  {
    var p := OfType(parent, e.tag);
    var b := RenderBody(a, e, p);
    var w := RenderFragment(b, e.children, p, 0);
    RenderBodyTrace(a, e, p);
    RenderFragmentTrace(b, e.children, p, 0);
    TraceSandwich(a, b, w, RenderComponent(a, e, parent), p, e,
                  if p in a.instances then [PreRender(p)] else [],
                  if p in w.instances then [PostRender(p)] else []);
  }

  /** `RenderComponentTrace` for the children `fragment[i..]`, whose events
      all concern paths at least an `Index` and a `TypeId` below `parent`. */
  lemma {:induction false} RenderFragmentTrace(a: Appy, fragment: seq<Element>, parent: Path, i: nat)
    requires i <= |fragment|
    ensures var r := RenderFragment(a, fragment, parent, i);
      && Extended(a, r)
      && Bodies(Added(a, r)) == FragmentVisits(fragment, parent, i)
      && Below(Added(a, r), parent, 2)
    decreases fragment, |fragment| - i
  {
    var r := RenderFragment(a, fragment, parent, i);
    if i < |fragment| {
      var q := AtIndex(parent, i);
      var c := RenderComponent(a, fragment[i], q);
      RenderComponentTrace(a, fragment[i], q);
      RenderFragmentTrace(c, fragment, parent, i + 1);
      TraceThenSiblings(a, c, r, parent, OfType(q, fragment[i].tag));
    } else {
      assert Added(a, r) == [];
    }
  }

  /** The events of a child's walk, which lie below its own path, followed by
      those of its later siblings, which lie below their parent. */
  lemma TraceThenSiblings(a: Appy, c: Appy, r: Appy, parent: Path, own: Path)
    requires IsPrefix(parent, own) && |own| >= |parent| + 2
    requires Extended(a, c) && Below(Added(a, c), own, 0)
    requires Extended(c, r) && Below(Added(c, r), parent, 2)
    ensures Extended(a, r)
    ensures Bodies(Added(a, r)) == Bodies(Added(a, c)) + Bodies(Added(c, r))
    ensures Below(Added(a, r), parent, 2)
  {
    ExtendedCompose(a, c, r);
    BodiesConcat(Added(a, c), Added(c, r));
    var added := Added(a, r);
    forall k | 0 <= k < |added|
      ensures IsPrefix(parent, added[k].EventPath())
      ensures |added[k].EventPath()| >= |parent| + 2
    {
      if k < |Added(a, c)| {
        assert added[k] == Added(a, c)[k];
        PrefixTransitive(parent, own, added[k].EventPath());
      } else {
        assert added[k] == Added(c, r)[k - |Added(a, c)|];
      }
    }
  }

  /** The fields of `Appy` a walk does not touch. */
  ghost predicate Untouched(a: Appy, r: Appy)
  {
    && r.root == a.root && r.appContext == a.appContext
    && r.appEventHandlers == a.appEventHandlers && r.dirty == a.dirty && r.contexts == a.contexts
  }

  /** A walk leaves the current path cleared (so a hook call between two
      bodies is an error) and touches no field beyond the registry, the hook
      counter and the trace. */
  lemma {:induction false} RenderComponentClears(a: Appy, e: Element, parent: Path)
    ensures var r := RenderComponent(a, e, parent);
      r.currentComponentPath == None && Untouched(a, r)
    decreases e, 0
  {
    var p := OfType(parent, e.tag);
    RenderBodyTrace(a, e, p);
    RenderFragmentClears(RenderBody(a, e, p), e.children, p, 0);
  }

  /** `RenderComponentClears` for the children `fragment[i..]`. */
  lemma {:induction false} RenderFragmentClears(a: Appy, fragment: seq<Element>, parent: Path, i: nat)
    requires i <= |fragment|
    ensures var r := RenderFragment(a, fragment, parent, i);
      && (a.currentComponentPath == None ==> r.currentComponentPath == None)
      && Untouched(a, r)
    decreases fragment, |fragment| - i
  {
    if i < |fragment| {
      var q := AtIndex(parent, i);
      RenderComponentClears(a, fragment[i], q);
      RenderFragmentClears(RenderComponent(a, fragment[i], q), fragment, parent, i + 1);
    }
  }

  /** No path of a child subtree equals its parent's path. */
  lemma ChildrenBelow(e: Element, parent: Path)
    ensures OfType(parent, e.tag) !in VisitedPaths(FragmentVisits(e.children, OfType(parent, e.tag), 0))
  {
    var p := OfType(parent, e.tag);
    FragmentVisitsBelow(e.children, p, 0);
  }

  lemma LifecycleOrder(added: seq<Lifecycle>, p: Path, e: Element,
                       pre: seq<Lifecycle>, inner: seq<Lifecycle>, post: seq<Lifecycle>)
    requires OwnEvents(p, pre, post)
    requires added == pre + [Body(Visit(p, e))] + inner + post
    requires Below(inner, p, 2)
    ensures added[0] == PreRender(p) <==> pre != []
    ensures added[|added| - 1] == PostRender(p) <==> post != []
  {
    if post == [] && |inner| > 0 {
      assert added[|added| - 1] == inner[|inner| - 1];
    }
  }

  /** A component's path has a current instance after its walk exactly when
      it had one on entry or its body called a hook. */
  lemma RenderOwnInstance(a: Appy, e: Element, parent: Path)
    ensures OfType(parent, e.tag) in RenderComponent(a, e, parent).instances
            <==> OfType(parent, e.tag) in a.instances || |e.hooks| > 0
  {
    var p := OfType(parent, e.tag);
    var b := RenderBody(a, e, p);
    var rest := FragmentVisits(e.children, p, 0);
    RenderBodyClaims(a, e, p);
    RenderFragmentClaims(b, e.children, p, 0);
    ChildrenBelow(e, parent);
    HookedAreVisited(rest);
    assert p !in HookedPaths(rest);
  }

  /** Lifecycle callbacks: `pre_render` is the first step of a component
      exactly when its path had a current instance on entry, and
      `post_render` is its last step exactly when its path has one once its
      children are rendered. */
  lemma RenderLifecycle(a: Appy, e: Element, parent: Path)
    ensures var r := RenderComponent(a, e, parent); var p := OfType(parent, e.tag);
      && Extended(a, r) && |Added(a, r)| > 0
      && (Added(a, r)[0] == PreRender(p) <==> p in a.instances)
      && (Added(a, r)[|Added(a, r)| - 1] == PostRender(p) <==> p in r.instances)
  {
    var p := OfType(parent, e.tag);
    var b := RenderBody(a, e, p);
    var w := RenderFragment(b, e.children, p, 0);
    RenderBodyTrace(a, e, p);
    RenderFragmentTrace(b, e.children, p, 0);
    ComponentLifecycle(a, b, w, RenderComponent(a, e, parent), p, e);
  }

  /** `LifecycleOrder` for the states around one component's walk. */
  lemma ComponentLifecycle(a: Appy, b: Appy, w: Appy, r: Appy, p: Path, e: Element)
    requires b.trace == a.trace + (if p in a.instances then [PreRender(p)] else []) + [Body(Visit(p, e))]
    requires Extended(b, w) && Below(Added(b, w), p, 2)
    requires r == Leave(w, p)
    ensures Extended(a, r) && |Added(a, r)| > 0
    ensures Added(a, r)[0] == PreRender(p) <==> p in a.instances
    ensures Added(a, r)[|Added(a, r)| - 1] == PostRender(p) <==> p in r.instances
  {
    var pre := if p in a.instances then [PreRender(p)] else [];
    var post := if p in w.instances then [PostRender(p)] else [];
    TraceSandwich(a, b, w, r, p, e, pre, post);
    LifecycleOrder(Added(a, r), p, e, pre, Added(b, w), post);
  }

  /** A component's own hook slots after its walk: its `k`-th hook call's
      slot keeps the value the path's instance had for it, or else holds the
      `k`-th constructor's value; rendering the children does not alter it. */
  lemma RenderMounts(a: Appy, e: Element, parent: Path)
    ensures var r := RenderComponent(a, e, parent); var p := OfType(parent, e.tag);
      forall k :: 0 <= k < |e.hooks| ==>
        && k in Resolve(r, p).slots
        && Resolve(r, p).slots[k]
           == (if k in Resolve(a, p).slots then Resolve(a, p).slots[k] else e.hooks[k])
  {
    var p := OfType(parent, e.tag);
    var b := RenderBody(a, e, p);
    var w := RenderFragment(b, e.children, p, 0);
    var r := RenderComponent(a, e, parent);
    var rest := FragmentVisits(e.children, p, 0);
    RenderBodySlots(a, e, p);
    RenderFragmentClaims(b, e.children, p, 0);
    ChildrenBelow(e, parent);
    HookedAreVisited(rest);
    assert SameEntry(b.instances, w.instances, p) && SameEntry(b.previousInstances, w.previousInstances, p);
    assert Resolve(r, p) == Resolve(w, p) == Resolve(b, p);
  }

  /** Every hook of the visit `v` holds, after the walk `a` to `r`, the value
      its slot had before, or else its constructor's value. */
  ghost predicate MountedAt(a: Appy, r: Appy, v: Visit)
  {
    forall k :: 0 <= k < |v.element.hooks| ==>
      && k in Resolve(r, v.path).slots
      && Resolve(r, v.path).slots[k]
         == (if k in Resolve(a, v.path).slots then Resolve(a, v.path).slots[k] else v.element.hooks[k])
  }

  ghost predicate Mounted(a: Appy, r: Appy, vs: seq<Visit>)
  {
    forall v :: v in vs ==> MountedAt(a, r, v)
  }

  lemma ResolveOutside(a: Appy, r: Appy, s: set<Path>, q: Path)
    requires RegistryFrame(a, r, s) && q !in s
    ensures Resolve(r, q) == Resolve(a, q)
  {
    assert SameEntry(a.instances, r.instances, q);
    assert SameEntry(a.previousInstances, r.previousInstances, q);
  }

  /** Hook state across a walk in which no two nodes share a path: every hook
      of every visited node keeps the value its slot had, and a slot that did
      not exist is constructed from that hook's constructor. */
  lemma {:induction false} RenderComponentMounted(a: Appy, e: Element, parent: Path)
    requires DistinctPaths(Visits(e, parent))
    ensures Mounted(a, RenderComponent(a, e, parent), Visits(e, parent))
    decreases e, 0
  {
    var p := OfType(parent, e.tag);
    var b := RenderBody(a, e, p);
    var w := RenderFragment(b, e.children, p, 0);
    var r := RenderComponent(a, e, parent);
    var rest := FragmentVisits(e.children, p, 0);
    assert Visits(e, parent) == [Visit(p, e)] + rest;
    DistinctSplit([Visit(p, e)], rest);
    RenderMounts(a, e, parent);
    RenderBodyClaims(a, e, p);
    RenderFragmentMounted(b, e.children, p, 0);
    assert r.instances == w.instances && r.previousInstances == w.previousInstances;
    ChildrenBelow(e, parent);
    forall v | v in Visits(e, parent)
      ensures MountedAt(a, r, v)
    {
      if v in rest {
        assert v.path in VisitedPaths(rest);
        ResolveOutside(a, b, if |e.hooks| > 0 then {p} else {}, v.path);
        assert Resolve(r, v.path) == Resolve(w, v.path);
        assert MountedAt(b, w, v);
      } else {
        assert v == Visit(p, e);
      }
    }
  }

  /** `RenderComponentMounted` for the children `fragment[i..]`. */
  lemma {:induction false} RenderFragmentMounted(a: Appy, fragment: seq<Element>, parent: Path, i: nat)
    requires i <= |fragment|
    requires DistinctPaths(FragmentVisits(fragment, parent, i))
    ensures Mounted(a, RenderFragment(a, fragment, parent, i), FragmentVisits(fragment, parent, i))
    decreases fragment, |fragment| - i
  {
    if i < |fragment| {
      var q := AtIndex(parent, i);
      var head := Visits(fragment[i], q);
      var tail := FragmentVisits(fragment, parent, i + 1);
      var c := RenderComponent(a, fragment[i], q);
      var r := RenderFragment(c, fragment, parent, i + 1);
      assert RenderFragment(a, fragment, parent, i) == r;
      DistinctSplit(head, tail);
      RenderComponentMounted(a, fragment[i], q);
      RenderFragmentMounted(c, fragment, parent, i + 1);
      RenderComponentClaims(a, fragment[i], q);
      RenderFragmentClaims(c, fragment, parent, i + 1);
      HookedAreVisited(head);
      HookedAreVisited(tail);
      forall v | v in head + tail
        ensures MountedAt(a, r, v)
      {
        if v in head {
          assert v.path in VisitedPaths(head);
          ResolveOutside(c, r, HookedPaths(tail), v.path);
          assert MountedAt(a, c, v);
        } else {
          assert v.path in VisitedPaths(tail);
          ResolveOutside(a, c, HookedPaths(head), v.path);
          assert MountedAt(c, r, v);
        }
      }
    }
  }

  /** No event of `events` is a `pre_render`. */
  ghost predicate NoPreRender(events: seq<Lifecycle>)
  {
    forall k :: 0 <= k < |events| ==> !events[k].PreRender?
  }

  /** A body event, then events without a `pre_render`, then at most a
      `post_render`: no `pre_render` among them. */
  lemma NoPreRenderAround(v: Visit, inner: seq<Lifecycle>, post: seq<Lifecycle>)
    requires NoPreRender(inner) && NoPreRender(post)
    ensures NoPreRender([Body(v)] + inner + post)
  {
    var added := [Body(v)] + inner + post;
    forall k | 0 <= k < |added|
      ensures !added[k].PreRender?
    {
      if k == 0 {
      } else if k <= |inner| {
        assert added[k] == inner[k - 1];
      } else {
        assert added[k] == post[k - 1 - |inner|];
      }
    }
  }

  /** The trace of a component whose path had no current instance on entry
      and whose children recorded no `pre_render`. */
  lemma FreshSandwich(a: Appy, b: Appy, w: Appy, r: Appy, p: Path, e: Element)
    requires b.trace == a.trace + [Body(Visit(p, e))]
    requires Extended(b, w) && NoPreRender(Added(b, w))
    requires r == Leave(w, p)
    ensures Extended(a, r) && NoPreRender(Added(a, r))
  {
    var inner := Added(b, w);
    var post := if p in w.instances then [PostRender(p)] else [];
    var added := [Body(Visit(p, e))] + inner + post;
    assert r.trace == a.trace + added;
    assert Added(a, r) == added;
    NoPreRenderAround(Visit(p, e), inner, post);
  }

  /** Two walks in a row, neither recording a `pre_render`. */
  lemma FreshCompose(a: Appy, c: Appy, r: Appy)
    requires Extended(a, c) && NoPreRender(Added(a, c))
    requires Extended(c, r) && NoPreRender(Added(c, r))
    ensures Extended(a, r) && NoPreRender(Added(a, r))
  {
    ExtendedCompose(a, c, r);
    var added := Added(a, r);
    forall k | 0 <= k < |added|
      ensures !added[k].PreRender?
    {
      if k < |Added(a, c)| {
        assert added[k] == Added(a, c)[k];
      } else {
        assert added[k] == Added(c, r)[k - |Added(a, c)|];
      }
    }
  }

  /** `render_component` asks whether the path has an instance in the
      current generation only. In a walk in which no two nodes share a path
      and that starts with none of their paths current, that never holds, so
      no `pre_render` runs at all. */
  lemma {:induction false} RenderComponentFresh(a: Appy, e: Element, parent: Path)
    requires DistinctPaths(Visits(e, parent))
    requires VisitedPaths(Visits(e, parent)) !! a.instances.Keys
    ensures var r := RenderComponent(a, e, parent);
      Extended(a, r) && NoPreRender(Added(a, r))
    decreases e, 0
  {
    var p := OfType(parent, e.tag);
    var b := RenderBody(a, e, p);
    var rest := FragmentVisits(e.children, p, 0);
    assert Visits(e, parent) == [Visit(p, e)] + rest;
    DistinctSplit([Visit(p, e)], rest);
    HookedPathsConcat([Visit(p, e)], rest);
    ChildrenBelow(e, parent);
    RenderBodyTrace(a, e, p);
    RenderBodyClaims(a, e, p);
    assert VisitedPaths(rest) !! b.instances.Keys;
    RenderFragmentFresh(b, e.children, p, 0);
    FreshSandwich(a, b, RenderFragment(b, e.children, p, 0), RenderComponent(a, e, parent), p, e);
  }

  /** `RenderComponentFresh` for the children `fragment[i..]`. */
  lemma {:induction false} RenderFragmentFresh(a: Appy, fragment: seq<Element>, parent: Path, i: nat)
    requires i <= |fragment|
    requires DistinctPaths(FragmentVisits(fragment, parent, i))
    requires VisitedPaths(FragmentVisits(fragment, parent, i)) !! a.instances.Keys
    ensures var r := RenderFragment(a, fragment, parent, i);
      Extended(a, r) && NoPreRender(Added(a, r))
    decreases fragment, |fragment| - i
  {
    var r := RenderFragment(a, fragment, parent, i);
    if i < |fragment| {
      var q := AtIndex(parent, i);
      var head := Visits(fragment[i], q);
      var tail := FragmentVisits(fragment, parent, i + 1);
      var c := RenderComponent(a, fragment[i], q);
      DistinctSplit(head, tail);
      HookedPathsConcat(head, tail);
      HookedAreVisited(head);
      RenderComponentFresh(a, fragment[i], q);
      RenderComponentClaims(a, fragment[i], q);
      assert VisitedPaths(tail) !! c.instances.Keys;
      RenderFragmentFresh(c, fragment, parent, i + 1);
      FreshCompose(a, c, r);
    } else {
      assert Added(a, r) == [];
    }
  }

  /** The framework's root element (`Element::create(root_element, ...)`):
      its body calls no hook and returns the root function's fragment. */
  function RootElement(root: seq<Element>): (e: Element)
  {
    Element(RootElementTag, [], root)
  }

  /** The state `render` starts its walk from: event handlers, contexts and
      the dirty flag reset, the current generation moved to the previous one
      and the application context registered. */
  function BeginFrame(a: Appy): (r: Appy)
    requires a.appContext.Some?
    ensures r.appEventHandlers == [] && !r.dirty
    ensures r.contexts == map[AppContextTag := a.appContext.value]
    ensures r.previousInstances == a.instances && r.instances == map[] && Disjoint(r)
    ensures r.currentComponentPath == a.currentComponentPath && r.trace == []
    ensures r.root == a.root && r.appContext == a.appContext
  {
    var cleared := a.(appEventHandlers := [], contexts := map[], dirty := false,
                      previousInstances := a.instances, instances := map[], trace := []);
    var provided := ProvideContext(cleared.contexts, AppContextTag, a.appContext.value);
    cleared.(contexts := provided.value)
  }

  /** `render`: one frame. The root element is walked from the empty path,
      then the previous generation, holding every instance not claimed this
      frame, is dropped. */
  function Render(a: Appy): (r: Appy)
    requires a.appContext.Some?
  {
    RenderComponent(BeginFrame(a), RootElement(a.root), []).(previousInstances := map[])
  }

  /** The walk of one frame visits the nodes of `Visits` from the root. */
  function FrameVisits(a: Appy): (vs: seq<Visit>)
  {
    Visits(RootElement(a.root), [])
  }

  /** The state after a frame: the previous generation is empty; the walk
      left the handlers, the dirty flag and the contexts as `BeginFrame` set
      them; no component is current; the walk's bodies ran at
      exactly the paths of `FrameVisits`, in order; the current generation
      holds exactly the visited paths whose body called a hook, so every
      instance was claimed by a path current during this frame and every
      other instance was dropped (a later visit of its path starts fresh);
      and an instance that survives keeps all of its hook state. */
  lemma FramePostState(a: Appy)
    requires a.appContext.Some?
    ensures var r := Render(a);
      && r.previousInstances == map[] && Disjoint(r)
      && r.dirty == BeginFrame(a).dirty && r.appEventHandlers == BeginFrame(a).appEventHandlers
      && r.contexts == BeginFrame(a).contexts
      && r.currentComponentPath == None
      && r.root == a.root && r.appContext == a.appContext
      && Bodies(r.trace) == FrameVisits(a)
      && r.instances.Keys == HookedPaths(FrameVisits(a))
      && r.instances.Keys <= VisitedPaths(Bodies(r.trace))
      && (forall q :: q !in HookedPaths(FrameVisits(a)) ==> Resolve(r, q) == NewInstance)
      && (forall q :: q in a.instances && q in r.instances ==> Extends(a.instances[q], r.instances[q]))
  {
    var b := BeginFrame(a);
    var w := RenderComponent(b, RootElement(a.root), []);
    var r := Render(a);
    var vs := FrameVisits(a);
    assert b.instances == map[] && b.previousInstances == a.instances && b.trace == [];
    RenderComponentClaims(b, RootElement(a.root), []);
    RenderComponentTrace(b, RootElement(a.root), []);
    RenderComponentClears(b, RootElement(a.root), []);
    assert Added(b, w) == w.trace == r.trace;
    HookedAreVisited(vs);
    forall q | q in a.instances && q in r.instances
      ensures Extends(a.instances[q], r.instances[q])
    {
      assert Resolve(b, q) == a.instances[q];
      assert Resolve(w, q) == r.instances[q];
    }
  }

  /** Hook state across a frame whose fragments have at most 2^32 children:
      for every visited node, its `k`-th hook call's slot is kept with the
      value it had at the end of the previous frame when the node's path had
      an instance with that slot; otherwise the slot holds the `k`-th
      constructor's value (the constructor of a kept slot is not re-run). */
  lemma FrameHookState(a: Appy)
    requires a.appContext.Some?
    requires |a.root| <= I32Modulus && forall c :: c in a.root ==> WellSized(c)
    ensures var r := Render(a);
      forall v, k :: v in FrameVisits(a) && 0 <= k < |v.element.hooks| ==>
        && v.path in r.instances
        && k in r.instances[v.path].slots
        && r.instances[v.path].slots[k]
           == (if v.path in a.instances && k in a.instances[v.path].slots
               then a.instances[v.path].slots[k] else v.element.hooks[k])
  {
    var b := BeginFrame(a);
    var w := RenderComponent(b, RootElement(a.root), []);
    var r := Render(a);
    var vs := FrameVisits(a);
    assert WellSized(RootElement(a.root));
    VisitsDistinct(RootElement(a.root), []);
    RenderComponentMounted(b, RootElement(a.root), []);
    RenderComponentClaims(b, RootElement(a.root), []);
    forall v, k | v in vs && 0 <= k < |v.element.hooks|
      ensures v.path in r.instances
      ensures k in r.instances[v.path].slots
      ensures r.instances[v.path].slots[k]
              == (if v.path in a.instances && k in a.instances[v.path].slots
                  then a.instances[v.path].slots[k] else v.element.hooks[k])
    {
      assert v.path in HookedPaths(vs);
      assert MountedAt(b, w, v);
      assert Resolve(w, v.path) == r.instances[v.path];
      assert Resolve(b, v.path) == if v.path in a.instances then a.instances[v.path] else NewInstance;
    }
  }

  /** Lifecycle callbacks over a frame whose fragments have at most 2^32
      children: since the generations are swapped before the walk and each
      path is visited once, no visited path is in the current generation when
      its node is entered, and no `pre_render` runs during the frame. A
      component that calls a hook still gets its `post_render` (see
      `RenderLifecycle`). */
  lemma FrameSkipsPreRender(a: Appy)
    requires a.appContext.Some?
    requires |a.root| <= I32Modulus && forall c :: c in a.root ==> WellSized(c)
    ensures forall k :: 0 <= k < |Render(a).trace| ==> !Render(a).trace[k].PreRender?
  {
    var b := BeginFrame(a);
    var w := RenderComponent(b, RootElement(a.root), []);
    assert WellSized(RootElement(a.root));
    VisitsDistinct(RootElement(a.root), []);
    assert b.instances == map[] && b.trace == [];
    RenderComponentFresh(b, RootElement(a.root), []);
    assert Added(b, w) == w.trace == Render(a).trace;
  }
}
