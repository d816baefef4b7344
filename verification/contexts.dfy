/** The per-frame context registry of src/appy/appy.rs: one shared value per
    context type, registered top-down and cleared every frame. */
module Contexts {

  import opened Paths
  import opened Results

  /** The identity of a shared (`Rc<RefCell<T>>`) context value. */
  datatype ContextValue = ContextValue(id: nat)

  type ContextMap = map<TypeTag, ContextValue>

  datatype ContextError = ContextAlreadyProvided

  /** `provide_context`: registering a second value for a type already present
      this frame fails; otherwise exactly that type gains the given value and
      every other registration is left as it was. */
  function ProvideContext(contexts: ContextMap, t: TypeTag, value: ContextValue): (r: Result<ContextMap, ContextError>)
    ensures r.Failure? <==> t in contexts
    ensures r.Success? ==> r.value.Keys == contexts.Keys + {t}
    ensures r.Success? ==> r.value[t] == value
    ensures r.Success? ==> forall k :: k in contexts ==> r.value[k] == contexts[k]
  {
    if t in contexts then Failure(ContextAlreadyProvided)
    else Success(contexts[t := value])
  }

  /** A value provided for a type is the one found under it afterwards, and a
      second registration for the same type in the same frame fails. */
  lemma ProvideThenProvideFails(contexts: ContextMap, t: TypeTag, v: ContextValue, w: ContextValue)
    requires t !in contexts
    ensures ProvideContext(contexts, t, v).Success?
    ensures ProvideContext(contexts, t, v).value[t] == v
    ensures ProvideContext(ProvideContext(contexts, t, v).value, t, w) == Failure(ContextAlreadyProvided)
  {
  }
}
