# appy reconciliation core, modelled in Dafny

This project models the per-frame reconciliation engine of the `appy` UI
library (`src/appy/appy.rs`) and the one-axis layout resolution of its `blk`
component (`src/components/blk.rs`).

- **Instance registry.** `Appy` keeps two generations of component instances,
  keyed by component path. When a component body calls a hook, the instance
  for the current path is claimed. It is taken from the current generation
  if it is there, moved out of the previous generation if it is there, and
  created fresh otherwise.
- **Hooks.** Hooks are numbered in call order inside one body invocation. Each
  hook owns one slot of the instance, with first-mount semantics.
- **Render walk.** The root element is at path `[TypeId(root)]`. Every
  other element gets a path made of three parts: its parent's path, then
  `Index(i as i32)` for its sibling position, then a `TypeId` component
  meant to identify its type (see "## Findings").
  `pre_render` and `post_render` run around the body and the children.
- **Frame driver.** `render` resets the event handlers, the contexts and the
  dirty flag, swaps the generations, provides the application context, walks
  the root and drops the previous generation.
- **Layout.** `Dim::compute_span` resolves start, size and end to an offset
  and a length.

Modules:

| file | module | contents |
|---|---|---|
| `results.dfy` | `Results` | `Option` and `Result` |
| `paths.dfy` | `Paths` | path components, the `i as i32` cast, path construction |
| `instances.dfy` | `Instances` | component instances and their hook slots |
| `elements.dfy` | `Elements` | element trees and the nodes a walk visits (`Visits`) |
| `contexts.dfy` | `Contexts` | the per-frame context registry |
| `runtime.dfy` | `Runtime` | the `Appy` state, claiming, hooks, the walk, the frame |
| `blk.dfy` | `Blk` | `Dim`, `to_px`, `compute_span` |
| `identity.dfy` | `Identity` | component identity as the code computes it, compared with per-type identity |

How the source's mechanisms are represented:

- **The `Appy` state.** The source reaches it through an ambient
  `environmental!` binding. Here it is an immutable datatype threaded through
  pure functions.
- **Component bodies.** A body is an `Element` with three parts: its type,
  the list of values its hook constructors produce (one per hook call, in
  call order), and the fragment it returns.
- **Lifecycle callbacks.** The `trace` field records when `pre_render`, a
  body and `post_render` ran at which path. It is reset when a frame starts.

Behaviour of the code worth knowing, which the model follows:

- **When instances are created.** An instance is created or claimed only when
  a body calls a hook, not for every visited node. After a frame, the
  current generation holds exactly the visited paths whose body called a
  hook (`Runtime.FramePostState`).
- **When `pre_render` runs.** `render_component` checks for the path with
  `contains_key` at appy.rs:73, before the body has claimed anything. That
  placement suggests the check is meant to find instances that existed
  before the visit. But it looks only in the *current* generation, and
  `render` moved every instance to the previous generation at appy.rs:106.
  So when each path is visited once, no `pre_render` runs during a frame
  (`Runtime.FrameSkipsPreRender`). It would run only for a path visited a
  second time in the same frame.
- **When `post_render` runs.** `post_render` runs when the path has an
  instance once the children are rendered. That includes a component's
  first mount (`Runtime.RenderLifecycle`).
- **Component identity.** The model gives each component type its own
  `TypeId` tag. The code computes something else (see "## Findings").

## Model

| member | source | states |
|---|---|---|
| `Paths.AsI32` | src/appy/appy.rs:63 | `i as i32` yields a value in the `i32` range that is congruent to `i` modulo 2^32 |
| `Paths.AsI32Injective` | src/appy/appy.rs:61-63 | two sibling positions below 2^32 get the same `Index` component only if they are equal |
| `Instances.CreateHookRef` | src/appy/appy.rs:38-40 | first-mount semantics: an existing slot is returned unchanged and the instance is untouched; a missing slot is created holding the constructor's value; no other slot changes |
| `Runtime.New` | src/appy/appy.rs:120-132 | a new engine has both generations empty, no current path, hook index 0, no handlers or contexts, and a clear dirty flag |
| `Runtime.ClaimCurrentInstance` | src/appy/appy.rs:45-54 | the current path ends up in the current generation. Its instance is the current one, else the one moved out of the previous generation, else a new one. No other entry changes, the generations stay disjoint, and nothing reachable through the registry changes |
| `Runtime.WithCurrentComponentInstance` | src/appy/appy.rs:43-58 | `f` is applied to the claimed instance: its updated instance is stored at the current path and its result is returned; no other entry changes |
| `Runtime.UseHookRef` | src/appy/appy.rs:32-41 | the reference is to slot `current_hook_index` of the current path, and the counter is advanced by one. The slot keeps the value it had in the claimed instance, or else gets the constructor's value. Other slots are kept and other paths are untouched |
| `Runtime.RunHooks` | src/appy/appy.rs:34-37 | a body with n hook calls hands out n references and advances the hook counter by n; fields other than the registry and the counter are unchanged |
| `Runtime.RunHooksRegistry` | src/appy/appy.rs:43-58 | hook calls change only the current path's registry entries. A body with a hook call leaves its path in the current generation, and one without leaves the state as it was. Disjointness is kept and the path's instance is only extended |
| `Runtime.RunHooksExtends` | src/appy/appy.rs:46-56 | no instance state reachable through the registry is lost or altered by hook calls, only extended |
| `Runtime.RunHooksSlotKeys` | src/appy/appy.rs:34-39 | after n hook calls, the path's slots are its earlier slots plus exactly the indices `current_hook_index ..< current_hook_index + n` |
| `Runtime.RunHooksSlots` | src/appy/appy.rs:34-40 | the k-th hook call of a body gets slot `current_hook_index + k` of the current path. That slot holds the value it had in the claimed instance, or else the k-th constructor's value |
| `Runtime.Enter` | src/appy/appy.rs:73-78 | on entering a body, `pre_render` is recorded exactly when the path has a current instance; the path becomes current with hook index 0; the registry is untouched |
| `Runtime.Leave` | src/appy/appy.rs:86-88 | after the children, `post_render` is recorded exactly when the path has a current instance; nothing else changes |
| `Runtime.RenderBodyTrace` | src/appy/appy.rs:73-83 | body bracketing: the body's events are an optional `pre_render` and then the body itself. Afterwards the current path is cleared and the hook counter equals the number of hook calls |
| `Runtime.RenderBodySlots` | src/appy/appy.rs:77-81 | the k-th hook call of a body lands in slot k of its path's instance. The slot keeps its value, or else holds the k-th constructor's value |
| `Runtime.RenderBodyClaims` | src/appy/appy.rs:77-83 | a body claims its path exactly when it calls a hook, and nothing else |
| `Runtime.RenderComponentClaims` | src/appy/appy.rs:69-89 | the walk of a component claims exactly the hooked paths of its subtree. It leaves every other entry alone, moves the claimed paths out of the previous generation, keeps the generations disjoint, and loses no instance state |
| `Runtime.RenderFragmentClaims` | src/appy/appy.rs:60-67 | the same for a fragment, child by child |
| `Runtime.RenderComponentTrace` | src/appy/appy.rs:69-89 | the bodies run in the pre-order of `Visits` (path construction: parent path, then `TypeId`, children at `Index(i)`); every event of the walk concerns the component's path or a path below it |
| `Runtime.RenderFragmentTrace` | src/appy/appy.rs:60-67 | a fragment's bodies run child by child in order; every event is at least an `Index` and a `TypeId` below the parent |
| `Runtime.RenderComponentClears` | src/appy/appy.rs:77-84 | after a component's walk no path is current. The root, app context, handlers, dirty flag and contexts are untouched |
| `Runtime.RenderFragmentClears` | src/appy/appy.rs:60-67 | the same for a fragment started with no current path |
| `Runtime.RenderOwnInstance` | src/appy/appy.rs:69-89 | a component's path has a current instance after its walk exactly when it had one before or its body called a hook |
| `Runtime.RenderLifecycle` | src/appy/appy.rs:73-88 | the walk's first event is `pre_render` exactly when the path had a current instance on entry. Its last is `post_render` exactly when the path has one at the end |
| `Runtime.RenderMounts` | src/appy/appy.rs:77-88 | a component's own hook slots, as set by its body, survive the walk of its children |
| `Runtime.RenderComponentMounted` | src/appy/appy.rs:69-89 | when no two nodes share a path, every hook of every visited node keeps its slot value or else gets its constructor's value |
| `Runtime.RenderFragmentMounted` | src/appy/appy.rs:60-67 | the same for a fragment |
| `Runtime.RenderComponentFresh` | src/appy/appy.rs:73-75 | a walk records no `pre_render` if it starts with none of its paths current and no two of its nodes share a path |
| `Runtime.RenderFragmentFresh` | src/appy/appy.rs:60-67 | the same for a fragment |
| `Runtime.BeginFrame` | src/appy/appy.rs:101-109 | the walk of a frame starts with the event handlers cleared, the dirty flag false, and the application context as the only registered context. The current generation has become the previous one, the new current one is empty, and the trace is empty |
| `Runtime.FramePostState` | src/appy/appy.rs:101-118 | after `render`, the following hold: <br>- The previous generation is empty. <br>- The walk left the handlers, the dirty flag and the contexts as the frame start set them. <br>- No path is current. <br>- The bodies ran at exactly the frame's visits, in order. <br>- The current generation holds exactly the hooked visited paths, and every other path resolves to a fresh instance. <br>- Surviving instances keep their state. |
| `Runtime.FrameHookState` | src/appy/appy.rs:101-118 | across a frame, each visited node's k-th hook slot keeps its value from the end of the previous frame, or else holds the k-th constructor's value |
| `Runtime.FrameSkipsPreRender` | src/appy/appy.rs:101-113 | no `pre_render` runs during a frame whose fragments have at most 2^32 children |
| `Identity.BoxedIdentityShared` | src/appy/appy.rs:69-71 | as written, every component is pushed with the same type identity. A component of any type rendered at a position takes over the instance the previous frame left there. If its first hook holds values of the same type as that instance's slot 0, the hook returns the slot's value rather than its own constructor's value |
| `Identity.TypedIdentityFresh` | src/appy/appy.rs:69-71 | with per-type identity, as intended: a component of another type at the same position leaves the earlier component's instance alone. When nothing of its own type was there, it mounts fresh with its constructors' values |
| `Contexts.ProvideContext` | src/appy/appy.rs:91-99 | providing a type already present fails. Otherwise exactly that type gains the value and every other registration is kept |
| `Contexts.ProvideThenProvideFails` | src/appy/appy.rs:91-99 | a value just provided is found under its type, and providing the same type again in the frame fails |
| `Elements.VisitsBelow` | src/appy/appy.rs:60-71 | a component is visited first, at its parent's path plus its `TypeId`; every other visit lies below it, at least one `Index` and one `TypeId` deeper |
| `Elements.VisitsDistinct` | src/appy/appy.rs:60-71 | paths are unique by construction: in a tree whose fragments have at most 2^32 children, no two nodes share a path |
| `Elements.ChildPath` | src/appy/appy.rs:60-71 | for every position `i <= 2^31 - 1`, the i-th child of a component at path `p` is visited at `p + [Index(i), TypeId(t)]`, where `t` is the child's type. Beyond that bound, `i as i32` wraps to another index. The root element itself is at `[TypeId(root)]` |
| `Blk.Dim.ToPx` | src/components/blk.rs:18-25 | `Px(v)` is v pixels, `Pc(v)` is v percent of `max`, and `Dp(v)` is v times the pixel ratio |
| `Blk.Mask` | src/components/blk.rs:28-30 | the mask is between 0 and 7. Bit 2 is set iff start is not `None`, bit 1 iff size is not, and bit 0 iff end is not (`is_some` per dimension) |
| `Blk.ComputeSpan` | src/components/blk.rs:27-43 | fails, as over-constrained, exactly when start, size and end are all given. Otherwise the span meets the layout rule: <br>- A given start is the offset. <br>- A given size is the length. <br>- A given end is the gap after the span. <br>- A missing start or end with no size stretches to that edge. <br>- A size alone is centred. |
| `Blk.SpanUnique` | src/components/blk.rs:32-42 | when not over-constrained, at most one span meets the layout rule |
| `Blk.SpanCases` | src/components/blk.rs:32-40 | the cases spelt out: <br>- Unconstrained fills the parent. <br>- A size alone is centred. <br>- A start with a size is taken as given. <br>- Any other case with a start or an end fills to `max` minus the end. |

## Left out

- `Appy::run`, `Appy::with_app_context` and `Appy::with`: event-loop integration, access to the application context and access to the ambient binding. Host events, window sizes and the redraw request are I/O.
- The `environmental!` ambient binding (`appy_instance::using` / `with`) is replaced by passing the state explicitly.
- The change trigger: `dirty` is a boolean that `render` clears at the start of a frame. `create_trigger` in `use_hook_ref` is not modelled, because `Trigger` is not part of this model. Neither are triggers fired by hook setters, whether during a frame or outside one.
- Hook reference reads and writes (`HookRef` get/set) and their mutation outside a render pass are not modelled. A hook reference records its path, slot index and value at hand-out.
- `ComponentInstance` is not part of this model. Only its hook slots are modelled, keyed by call-order index, with first-mount semantics for `create_hook_ref`. The contents of `pre_render` and `post_render` are not modelled; the trace records when they are called.
- Hook constructors are closures called only for a missing slot. They are modelled by the value they produce, so their side effects are not modelled.
- `Element` and `root_element` are not part of this model. The root element is taken to call no hook and to return the root function's fragment. Component bodies are closed: they do not call `provide_context`, `use_context` or other hooks beyond `use_hook_ref`.
- `use_context` and the removal of contexts are not part of this model.
- Type identities (`TypeId::of`) are abstract tags. `RootElement` and `AppContext` get two fixed tags, and the box's type identity of the finding below gets a third.
- Runtime.ClaimCurrentInstance: requires a current path. The source unwraps `current_component_path` and panics without one.
- Runtime.WithCurrentComponentInstance: requires a current path, as for the claim.
- Runtime.UseHookRef: requires a current path, as for the claim.
- Runtime.RunHooks: requires a current path, as for the claim.
- Contexts.ProvideContext: the source's panic on a duplicate type is a `Failure` result.
- Runtime.New: states a clear dirty flag. `Trigger::new()` is not part of this model, so its initial state is assumed to be clear. Nothing later depends on it, because every frame clears the flag at its start.
- Identity.BoxedIdentityShared: slot values are untyped. A hook that holds values of another type and reaches a slot shared this way is not modelled. In the source, the generic `create_hook_ref::<T>` reads the slot, and that function is not part of this model; it would presumably fail its downcast rather than take the value over.
- Runtime.FramePostState: requires an application context. The source unwraps `app_context` and panics without one.
- Runtime.FramePostState: the handlers, dirty flag and contexts it states after the frame are those set at the frame start only because the modelled bodies are closed. In the source, bodies can fire triggers, register event handlers and provide contexts during the walk. The source promises only the reset at the frame start, which `Runtime.BeginFrame` states.
- Runtime.FrameHookState: requires every fragment to have at most 2^32 children. With more, `i as i32` repeats sibling indices and paths may collide.
- Runtime.FrameSkipsPreRender: requires every fragment to have at most 2^32 children, as for `FrameHookState`.
- Blk.Dim.ToPx: requires a dimension other than `None`. The source panics on `None`. Its arithmetic is over exact reals, as for `ComputeSpan`.
- Blk.ComputeSpan: arithmetic is over exact reals, so `f32` rounding, NaN and infinities are not modelled. For example, `Pc(0.0)` with an infinite `max` gives NaN in the source. The `bad constraints` branch cannot be reached, since the mask is at most 7.
- The body of the `blk` component is not modelled: reading the context, the rectangle update with its `as i32` truncation, and the `post_render` restore.
- `text_renderer`, `array_buffer`, `with_clone` and the crate roots are not modelled; they lie outside the reconciliation core.

## Findings

| source | as written | input that shows it | evidently intended | confidence | as-written member | corrected member |
|---|---|---|---|---|---|---|
| src/appy/appy.rs:69-71 | The path component is `TypeId(component.type_id())`, where `component` is a `Box<dyn ElementT>` and `std::any::Any` is in scope. Method lookup finds `Any::type_id` for the box itself before it dereferences to the element. So every component gets the same `TypeId`, and identity is purely positional. A later component at a position therefore reads the earlier one's hook slots, where its hooks hold values of the same type | Frame 1 renders component A, with one hook whose slot holds 7, as root child 0. Frame 2 renders component B there instead, whose hook constructor gives 0. B's hook returns 7, A's state | Each component type has its own identity. B mounts fresh with 0 and does not touch A's instance, as the per-type `TypeId` component of a path suggests | not executed; medium (the definition of `ElementT` is not part of this model) | `Identity.BoxedIdentityShared` | `Identity.TypedIdentityFresh` |
