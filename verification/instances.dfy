/** The persistent per-identity state: a component instance with its hook
    slots (the `ComponentInstance` of src/appy/appy.rs). */
module Instances {

  /** The opaque, type-erased value held by one hook slot. */
  type HookValue = int

  /** A component instance. Only its hook slots are modelled, keyed by the
      call-order index of the hook that created them. */
  datatype Instance = Instance(slots: map<nat, HookValue>)

  /** `ComponentInstance::new()`: an instance without any hook slot. */
  const NewInstance: Instance := Instance(map[])

  /** `before` is kept inside `after`: every slot of `before` is still present
      in `after` with the same value. */
  predicate Extends(before: Instance, after: Instance)
  {
    forall k :: k in before.slots ==> k in after.slots && after.slots[k] == before.slots[k]
  }

  lemma ExtendsTransitive(x: Instance, y: Instance, z: Instance)
    requires Extends(x, y) && Extends(y, z)
    ensures Extends(x, z)
  {
  }

  /** `create_hook_ref(i, ctor, t)` with first-mount semantics: slot `i` is
      constructed from `ctor` the first time it is asked for and returned
      unchanged on every later call. The second component is the value the
      returned hook reference reads. */
  function CreateHookRef(ci: Instance, i: nat, ctor: HookValue): (r: (Instance, HookValue))
    ensures Extends(ci, r.0)
    ensures r.0.slots.Keys == ci.slots.Keys + {i}
    ensures r.1 == r.0.slots[i]
    ensures i in ci.slots ==> r.0 == ci
    ensures i !in ci.slots ==> r.1 == ctor
  {
    if i in ci.slots then (ci, ci.slots[i])
    else (Instance(ci.slots[i := ctor]), ctor)
  }
}
