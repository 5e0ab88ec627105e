# entt-mruby dispatch layer, in Dafny

This project models the layer of entt-mruby that lets mruby scripts read and
write EnTT components by integer id, and proves properties of that model.
The layer is the `RegistryMixin` methods bound to the script-level `Registry`
class, the `DynamicComponents` store, and the per-component operation table.

- A component id below `max_static_components` is the engine's type index of
  a compiled-in component. Any larger id names a script-defined ("dynamic")
  component. Dynamic components live in one per-entity `DynamicComponents`
  map, keyed by id.
- `has?`, `get`, `set` and `remove` unpack `(entity, type, *args)` and look up
  a `{has, get, remove, set}` record in the function table. Every dynamic id
  selects the `DynamicComponents` record. They then call the selected
  operation.
- `component(name)` turns names into ids. Unseen names get ids from a counter
  that starts at `max_static_components`.
- `entities(*ids, &block)` splits the ids into a structural filter and a list
  of dynamic keys. It yields every entity that satisfies both.
- Every value the dynamic store holds is registered as a GC root and
  unregistered when overwritten or erased.

Files and modules:

| file | module | what it holds |
|---|---|---|
| values.dfy | `MrbValues` | script values, the 32-bit casts, `set`'s argument encoding |
| function_map.dfy | `FunctionMap` | `ComponentFunctionSet`, the function table, `mrb_init_function_map` |
| engine.dfy | `Engine` | the `Registry` class (EnTT registry plus mixin fields plus GC roots), `runtime_view` |
| default_interface.dfy | `DefaultInterface` | `DefaultComponentInterface<T>` |
| dynamic_components.dfy | `DynamicComponents` | the dynamic store's operations and the GC root balance |
| component_names.dfy | `ComponentNames` | the name table behind `component` |
| query.dfy | `Query` | the id split and the result set of `entities` |
| registry_mixin.dfy | `RegistryMixin` | unpacking and dispatch, the script-level object, `mrb_init`, `mrb_eval`, cross-operation lemmas |

Modelling choices:

- **Object-level model.** The code that mutates state is modelled on objects:
  - `Engine.Registry` is the `Derived` object;
  - `RegistryMixin.RegistryObject` is the script object with its weak pointer.
  Each script call is a method on these objects. Each method is tied to a
  pure function of the old state (`Forward`, `Apply`, `Emplaced`,
  `Assigned`, ...), and the lemmas are stated about those functions.
- **32-bit casts.** `mrb_int` values are unbounded integers. The casts to the
  32-bit `entt::entity` and `entt::id_type` are reduction modulo 2^32
  (`ToU32`), applied where the C++ code converts.
- **One type index.** The function table is keyed by `entt::type_seq`, while
  the dispatch and `mrb_init_component_name` use `registry.type<>()`. The
  model takes the two to be the same index: `Registry.dynIndex` for
  `DynamicComponents`, and `StaticComponent.index` for the others.
- **Static indices are below `max_static_components`.** `Init`, `InitKeepsInv`
  and `SeededKeepsIssued` assume every listed component's type index lies
  below `max_static_components`. The code does not check this (see
  `RegistryMixin.Init` under "## Left out").
- **Failed argument parsing is nil.** Where `mrb_get_args` would raise
  (wrong kind, too many arguments), the model answers nil, as a lookup miss
  does.
- **Blocks.** `mrb_yield` is modelled by returning the set of entities the
  block would receive. The block itself is a boolean: given or not.

Behaviour worth knowing, as the code has it:

- The default `get` neither creates the component nor returns it. It answers
  the same presence boolean as `has`.
- The default `set` ignores its arguments and emplaces a
  default-constructed component.
- `mrb_eval` answers nil when an exception is pending after evaluation. It
  does not clear the pending exception; the caller does that.
- `entities` and `has?` disagree on `DynamicComponents`' own raw index:
  `entities` puts it in the structural filter and so asks whether the entity
  has a store at all, while `has?` looks that index up as a key in the store
  (`QueryDisagreesOnDynIndex`). With no id at all, `entities` yields nothing.
  `QueryAgreesWithHas` is stated for non-empty lists of other ids.
- The dynamic `get` and `has` attach an empty store to an entity that had
  none. They never add a key. `remove` never creates a store.

## Model

| member | source | states |
|---|---|---|
| MrbValues.ToU32 | include/entt-mruby/registry-mixin.h:338-349 | the `(entt::entity)` / `id_type` cast gives a value below 2^32, congruent to the input modulo 2^32, and the identity on values already in range |
| MrbValues.PackArgs | include/entt-mruby/dynamic-components.h:32-37 | no argument gives nil, one argument gives that argument, two or more give an array of all of them in order |
| MrbValues.PackArgsRoundTrip | include/entt-mruby/dynamic-components.h:32-37 | the encoding loses nothing: given the arity, the argument list is recovered from the stored value |
| FunctionMap.InterfaceOf | include/entt-mruby/component-interface.h:68-71 | `DynamicComponents` uses its own specialisation, and every other component uses the defaults for its own type |
| FunctionMap.EntryFor | include/entt-mruby/component-interface.h:8-15 | a record's `has`, `get`, `remove` and `set` fields all come from one interface and each holds the operation it is named after |
| FunctionMap.InstalledEntries | include/entt-mruby/component-interface.h:19-32 | installation adds exactly the listed keys, binds each to its interface's record, leaves other entries alone and keeps the table well formed |
| FunctionMap.InitFunctionMap | include/entt-mruby/component-interface.h:19-32 | the loop writing one record per listed type yields the installed table, with its keys and entries |
| FunctionMap.Installed | include/entt-mruby/component-interface.h:19-32 | the table after writing one record per listed type: every earlier key is kept and every listed type gets an entry |
| Engine.View | include/entt-mruby/registry-mixin.h:233-233 | the runtime view holds exactly the entities that carry every filter type; an empty filter gives an empty view |
| Engine.Registry.constructor | include/entt-mruby/registry-mixin.h:113-116 | a fresh registry has no entity, no table entry, no name, no root, and its dynamic id counter starts at `max_static_components` |
| DefaultInterface.Emplaced | include/entt-mruby/component-interface.h:44-48 | `emplace_or_replace` makes the component present on that entity and changes no other entity |
| DefaultInterface.Erased | include/entt-mruby/component-interface.h:57-65 | `remove<T>` takes the component off that entity and changes no other entity |
| DefaultInterface.Has | include/entt-mruby/component-interface.h:50-55 | answers true exactly when the component is present, changing nothing |
| DefaultInterface.Get | include/entt-mruby/component-interface.h:37-42 | answers the same presence boolean as `has`, creating and returning nothing |
| DefaultInterface.Set | include/entt-mruby/component-interface.h:44-48 | whatever the arguments, the component becomes present and the answer is true |
| DefaultInterface.Remove | include/entt-mruby/component-interface.h:57-65 | a present component is removed with answer true; otherwise the answer is false and the pools are unchanged |
| DefaultInterface.SetRemoveCycle | include/entt-mruby/component-interface.h:44-65 | after `set` the component is present, after `remove` it is absent, and a second `remove` changes nothing |
| DynamicComponents.Attached | include/entt-mruby/dynamic-components.h:20-20 | `get_or_assign` gives the entity a store if it had none and changes no store's contents |
| DynamicComponents.Slot | include/entt-mruby/dynamic-components.h:31-31 | `components[type]` reads the stored value, or nil for an absent key |
| DynamicComponents.Assigned | include/entt-mruby/dynamic-components.h:28-40 | assignment sets that one key of that entity, keeps its other keys and every other entity's store |
| DynamicComponents.Dropped | include/entt-mruby/dynamic-components.h:52-65 | erasure removes that one key, creates no store and keeps every other key and entity |
| DynamicComponents.Get | include/entt-mruby/dynamic-components.h:18-26 | answers the stored value or nil, attaches an empty store if none existed, adds no key |
| DynamicComponents.Set | include/entt-mruby/dynamic-components.h:28-40 | stores and returns the encoded arguments in that slot; the roots lose the slot's previous content once and gain the new value once |
| DynamicComponents.Has | include/entt-mruby/dynamic-components.h:42-50 | answers whether the key is present, attaching an empty store if none existed |
| DynamicComponents.Remove | include/entt-mruby/dynamic-components.h:52-65 | with no store or no key, answers false and changes nothing; otherwise unregisters the value once, erases only that key and answers true |
| DynamicComponents.SetThenGet | include/entt-mruby/dynamic-components.h:18-65 | after `set` the key is present and reads back as the value `set` returned; after `remove` it is absent |
| DynamicComponents.SetKeepsRoots | include/entt-mruby/dynamic-components.h:28-40 | the register/unregister pairing of `set` keeps every stored heap object rooted and leaves each object's spare registrations unchanged |
| DynamicComponents.RemoveKeepsRoots | include/entt-mruby/dynamic-components.h:52-65 | the unregistration of `remove` keeps every stored heap object rooted and leaves each object's spare registrations unchanged |
| DynamicComponents.AttachKeepsRoots | include/entt-mruby/dynamic-components.h:20-20 | attaching an empty store keeps the roots balanced |
| ComponentNames.Component | include/entt-mruby/registry-mixin.h:150-157 | a known name keeps its id and leaves the table and counter alone; an unseen name gets the old counter value, is recorded, and the counter grows by one |
| ComponentNames.ComponentKeepsIssued | include/entt-mruby/registry-mixin.h:150-157 | a fresh id is at least `max_static_components` and larger than every earlier id, and no two names share an id |
| ComponentNames.ComponentAllBinds | include/entt-mruby/registry-mixin.h:134-158 | after any run of `component` calls, every name is bound to the id it was given, earlier bindings stand, and the counter never went back |
| ComponentNames.ComponentIdsDistinct | include/entt-mruby/registry-mixin.h:134-158 | two calls give the same id exactly when they name the same component |
| Query.SplitCoversIntegers | include/entt-mruby/registry-mixin.h:211-231 | every integer argument lands in exactly the static or the dynamic list (as a 32-bit id), and nothing else lands in either |
| Query.Partition | include/entt-mruby/registry-mixin.h:211-231 | the loop builds the dynamic list in order, and a filter list holding the static ids plus `DynamicComponents` exactly once when any dynamic id was given |
| Query.Matches | include/entt-mruby/registry-mixin.h:233-265 | the entities `entities` yields: none when no integer id was asked for, and only entities the engine holds components for |
| Query.MatchesExactly | include/entt-mruby/registry-mixin.h:233-265 | an entity matches exactly when some integer id was asked for, it carries every static one, and its dynamic store holds every dynamic one |
| RegistryMixin.Call | include/entt-mruby/registry-mixin.h:338-388 | the call through the record's function pointer has the answer and effect the selected operation specifies |
| RegistryMixin.DispatchRule | include/entt-mruby/registry-mixin.h:284-316 | a call misses exactly without two leading integers or without a table entry for its key; a miss is nil with no change; the type passes through unchanged; ids from `max_static_components` on reach the `DynamicComponents` record |
| RegistryMixin.Unpack | include/entt-mruby/registry-mixin.h:284-316 | unpacking succeeds exactly with two leading integers whose lookup key has a table entry; the entity is then a 32-bit value, the arguments are rebuilt from entity, type and the rest, and the record is the one the key selects |
| RegistryMixin.Apply | include/entt-mruby/component-interface.h:37-65 | one table operation touches only the component pools, the dynamic stores and the GC roots, and only those of its own entity; the defaults leave the dynamic stores and roots alone, the `DynamicComponents` operations the pools; `has` and `get` change no contents |
| RegistryMixin.Forward | include/entt-mruby/registry-mixin.h:338-388 | a forwarded `has?`/`get`/`set`/`remove` changes only the pools, dynamic stores and roots, and only for the entity its first argument names |
| RegistryMixin.ApplyKeepsInv | include/entt-mruby/dynamic-components.h:18-65 | every table operation changes only the pools, stores and roots, and keeps the table, the names and the root balance valid |
| RegistryMixin.ForwardKeepsInv | include/entt-mruby/registry-mixin.h:338-388 | every forwarded `has?`, `get`, `set` and `remove` keeps the registry invariant |
| RegistryMixin.SetThenHasGet | include/entt-mruby/registry-mixin.h:338-388 | after a successful `set`, `has?` answers true and `get` returns what `set` returned: the stored value for a dynamic id, true for a static one |
| RegistryMixin.RemoveThenHas | include/entt-mruby/registry-mixin.h:338-388 | `remove` answers what `has?` answered before; afterwards `has?` is false and a second `remove` is false with no change |
| RegistryMixin.MatchesIffEachPresent | include/entt-mruby/registry-mixin.h:185-268 | for a non-empty list of genuine ids, the query matches an entity exactly when it carries each one |
| RegistryMixin.HasAnswersPresent | include/entt-mruby/registry-mixin.h:338-349 | for a 32-bit entity and an id that dispatches (from `max_static_components` on with `DynamicComponents` in the table, or below it with a table entry and not `DynamicComponents`' own index), `has?` answers whether the entity carries the component the id names |
| RegistryMixin.QueryAgreesWithHas | include/entt-mruby/registry-mixin.h:185-268 | for a non-empty list of ids, each either from `max_static_components` on with `DynamicComponents` in the table, or a non-negative static index with a table entry other than `DynamicComponents`' own, `entities` yields an entity exactly when `has?` answers true for it and every one of the ids |
| RegistryMixin.QueryDisagreesOnDynIndex | include/entt-mruby/registry-mixin.h:211-265 | with `DynamicComponents` at index 0 and `max_static_components` at 32, an entity holding only an empty store is yielded by `entities 0`, while `has?` for it and id 0 answers false |
| RegistryMixin.SeededKeepsIssued | include/entt-mruby/registry-mixin.h:393-400 | seeding static names below `max_static_components` keeps ids distinct, and every static binding comes from a listed component |
| RegistryMixin.StaticIndexCollides | include/entt-mruby/registry-mixin.h:393-400 | a component whose type index is 32 with the counter at 32 is seeded at 32, `component` then gives an unseen name 32 as well, and id 32 is routed to the `DynamicComponents` record |
| RegistryMixin.Seeded | include/entt-mruby/registry-mixin.h:393-400 | seeding the static names binds exactly the earlier names plus every listed name, and keeps the binding of every name not listed |
| RegistryMixin.SeededBindsListed | include/entt-mruby/registry-mixin.h:393-400 | after seeding, a component listed once is bound under its name to its own type index |
| RegistryMixin.InitKeepsInv | include/entt-mruby/registry-mixin.h:402-435 | installing the records and seeding the names establishes the registry invariant |
| RegistryMixin.InitComponentName | include/entt-mruby/registry-mixin.h:393-400 | the component's type name is bound to its type index |
| RegistryMixin.Init | include/entt-mruby/registry-mixin.h:402-435 | installs `DynamicComponents` and the listed components, seeds their names so that each component listed once is bound to its type index, and binds a new script object to the registry with its invariant holding |
| RegistryMixin.Eval | include/entt-mruby/registry-mixin.h:462-473 | nil whenever an exception is pending after evaluation, otherwise the evaluated value |
| RegistryMixin.YieldMatching | include/entt-mruby/registry-mixin.h:236-265 | the loop over the view yields exactly the view's entities whose store holds every dynamic id |
| RegistryMixin.RegistryObject.constructor | include/entt-mruby/registry-mixin.h:19-22 | a new script object's weak pointer is null |
| RegistryMixin.RegistryObject.Bind | include/entt-mruby/registry-mixin.h:427-429 | `registry_data->set` points the object at the registry |
| RegistryMixin.RegistryObject.Invoke | include/entt-mruby/registry-mixin.h:284-316 | with a null pointer nil; otherwise the answer and new state of the forwarded operation, with the invariant kept |
| RegistryMixin.RegistryObject.Has | include/entt-mruby/registry-mixin.h:338-349 | `has?` is the forwarded `has` operation, nil on a miss |
| RegistryMixin.RegistryObject.Get | include/entt-mruby/registry-mixin.h:351-362 | `get` is the forwarded `get` operation, nil on a miss |
| RegistryMixin.RegistryObject.Set | include/entt-mruby/registry-mixin.h:364-375 | `set` is the forwarded `set` operation with the remaining arguments, nil on a miss |
| RegistryMixin.RegistryObject.Remove | include/entt-mruby/registry-mixin.h:377-388 | `remove` is the forwarded `remove` operation, nil on a miss |
| RegistryMixin.RegistryObject.IsValid | include/entt-mruby/registry-mixin.h:318-336 | nil unless exactly one integer is given; otherwise whether that entity was handed out |
| RegistryMixin.RegistryObject.Create | include/entt-mruby/registry-mixin.h:271-279 | answers the next entity id and counts it as created, changing nothing else |
| RegistryMixin.RegistryObject.Component | include/entt-mruby/registry-mixin.h:134-158 | nil (and no change) unless exactly one string is given, since argument parsing rejects a missing, non-string or extra argument; otherwise the name table's answer, with the table and counter updated as it says |
| RegistryMixin.RegistryObject.AllComponents | include/entt-mruby/registry-mixin.h:161-183 | an array as long as the name table, holding each known name exactly once as a string |
| RegistryMixin.RegistryObject.Entities | include/entt-mruby/registry-mixin.h:185-268 | nil with nothing yielded without arguments or block; otherwise yields exactly the matching entities and answers the object itself |
| RegistryMixin.RegistryObject.ResolveNames | include/entt-mruby/registry-mixin.h:102-105 | resolving names calls `component` on each in turn, with the ids and table update of that run |
| RegistryMixin.RegistryObject.EachEntity | include/entt-mruby/registry-mixin.h:102-105 | `each_entity` resolves the names and yields exactly the entities the query over their ids matches |
| RegistryMixin.TransformVelocityQuery | test/mruby-test.cc:155-168 | with `max_static_components` at 32, `Transform` on entities 0 and 1 and `Velocity` (id 32) on entity 1 alone, asking for both finds entity 1 |
| RegistryMixin.TransformVelocityIds | test/mruby-test.cc:149-158 | with `Transform` seeded at index 1 and the counter at 32, `component` resolves `Transform` to 1 and the unknown `Velocity` to 32 |
| RegistryMixin.TransformVelocityRun | test/mruby-test.cc:114-174 | with entity 0 given `Transform` from C++, setting `Transform` and `Velocity` (id 32) on the script-created entity 1 leaves the query finding entity 1 alone, and `get` reads the velocity back |

## Left out

- Custom `ComponentInterface<T>` specialisations (the `MRUBY_COMPONENT_*` macros) and the `to_mrb`/`from_mrb` marshalling. Only the defaults and the `DynamicComponents` specialisation are modelled; component values are presence only.
- The `Registry::<Name>` constants `mrb_init_component_name` defines with `mrb_define_const`, the `$registry` global, and the loading of the script prelude in `mrb_init`. These are interpreter bindings.
- The script prelude's `Entity` class, and its `component_id` helper's test `id === Fixnum`. That test is false for integers, so every argument goes through `component`. `each_entity` is modelled with names only.
- `mrb_load_file` and `mrb_on_exception`: file I/O and printing.
- `mrb_get_args` raising `ArgumentError`/`TypeError`. It is modelled as a nil answer, and float-to-integer conversion is not modelled.
- RegistryMixin.RegistryObject.Create: the source checks only that the object has data, not that its pointer is set, and would dereference a null registry. The model answers nil there.
- RegistryMixin.RegistryObject.IsValid: entity versions and `destroy` are not modelled. `valid` is "below the number of entities created", which is what EnTT's check reduces to when nothing was destroyed and fewer than 2^20 entities exist.
- RegistryMixin.Forward: `has?`, `get`, `set` and `remove` on an id `create` never returned, or on an id carrying version bits, act as on any other entity. The forwarders pass the id on without a `valid` check, and EnTT's valid-entity precondition (an assertion) and its 20-bit entity index are not modelled: every 32-bit id is its own entity.
- RegistryMixin.Init: requires every listed component's type index to be below `max_static_components`. The code seeds `type<Component>()` as it is and routes every id from `max_static_components` on to `DynamicComponents`. A larger index would share its id with the first dynamic name and never reach its own record (`StaticIndexCollides`). The invariant and the distinct-ids results are not claimed for that case.
- Overflow of `next_dynamic_component_id`, which is a C++ `int`. The counter is unbounded in the model.
- GC internals. Registration is one occurrence in a multiset, and the root balance is stated only for heap objects (strings, arrays, other objects); immediates are not collected.
- Object identity of the arrays `set` allocates and of string values. `Str` and `Arr` values compare by content, while `mrb_gc_unregister` matches by pointer, so the root balance is proved per content value, not per object. Also left out: the order `all_components` and `entities` produce. Both are sets in the model, with no ordering claims.
- A script block running registry operations while `entities` iterates. The yielded set is computed on the state at the start of the iteration.
- The run of the test driver through the script-level object. It is stated on the registry's state functions (`TransformVelocityRun`). The Transform component there has a custom interface; here it uses the defaults.
