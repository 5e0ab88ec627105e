/** The state the dispatch layer works on: the EnTT registry (which static
    components each entity carries, and each entity's `DynamicComponents`
    payload), the mixin's own tables, and the mruby GC root list. In the
    program all of it hangs off one `Derived` object, which inherits both
    `entt::registry` and `RegistryMixin<Derived>`. */
module Engine {
  import opened MrbValues
  import opened FunctionMap

  /** Static components present per entity, as engine type indices. */
  type Pools = map<Entity, set<int>>

  /** The `DynamicComponents::components` map of each entity that has one. */
  type DynPool = map<Entity, map<int, Value>>

  function ComponentsOf(pools: Pools, e: Entity): set<int>
  {
    if e in pools then pools[e] else {}
  }

  function StoreOf(dyn: DynPool, e: Entity): map<int, Value>
  {
    if e in dyn then dyn[e] else map[]
  }

  /** `registry.has<T>(e)` for the component type whose index is `t`. */
  predicate HasType(pools: Pools, dyn: DynPool, dynIndex: int, e: Entity, t: int)
  {
    if t == dynIndex then e in dyn else t in ComponentsOf(pools, e)
  }

  /** `registry.runtime_view(filter)`: the entities that carry every listed
      type. A view over no type at all has no pool to iterate and is empty. */
  function View(pools: Pools, dyn: DynPool, dynIndex: int, filter: set<int>): (r: set<Entity>)
    ensures forall e :: e in r <==> filter != {} && forall t :: t in filter ==> HasType(pools, dyn, dynIndex, e, t)
  {
    if filter == {} then {}
    else
      var r := set e | e in pools.Keys + dyn.Keys && forall t :: t in filter ==> HasType(pools, dyn, dynIndex, e, t);
      assert forall e :: (forall t :: t in filter ==> HasType(pools, dyn, dynIndex, e, t)) ==> e in r by {
        forall e | forall t :: t in filter ==> HasType(pools, dyn, dynIndex, e, t)
          ensures e in pools.Keys + dyn.Keys
        {
          var t0 := SomeMember(filter);
          assert HasType(pools, dyn, dynIndex, e, t0);
        }
      }
      r
  }

  lemma SomeMember<T>(s: set<T>) returns (x: T)
    requires s != {}
    ensures x in s
  {
    if forall y :: y !in s {
      assert false;
    }
    x :| x in s;
  }

  /** A snapshot of everything a script call can change. */
  datatype State = State(
    created: nat,
    pools: Pools,
    dyn: DynPool,
    roots: multiset<Value>,
    funcMap: ComponentFunctionMap,
    names: map<string, int>,
    nextDynamicId: int)

  /** The `Derived` registry object. */
  class Registry {
    /** `Derived::max_static_components`: ids from here on are dynamic. */
    const maxStatic: int
    /** The engine's type index of `DynamicComponents`. The function map is
        keyed by `entt::type_seq` and the dispatch uses `registry.type<>()`;
        the model takes the two to be the same index. */
    const dynIndex: int

    /** Entities handed out by `create` are `0 .. created - 1`. */
    var created: nat
    var pools: Pools
    var dyn: DynPool
    /** The mruby GC root list of the registry's interpreter. */
    var roots: multiset<Value>
    /** `mrb_func_map` */
    var funcMap: ComponentFunctionMap
    /** `mrb_dynamic_components`: every known component name and its id. */
    var names: map<string, int>
    /** `Derived::next_dynamic_component_id` */
    var nextDynamicId: int

    function Snapshot(): State
      reads this
    {
      State(created, pools, dyn, roots, funcMap, names, nextDynamicId)
    }

    /** A fresh registry: no entity, no table entry, no name, and the dynamic
        id counter at `max_static_components`. */
    constructor (maxStatic: int, dynIndex: int)
      ensures this.maxStatic == maxStatic && this.dynIndex == dynIndex
      ensures Snapshot() == State(0, map[], map[], multiset{}, map[], map[], maxStatic)
    {
      this.maxStatic := maxStatic;
      this.dynIndex := dynIndex;
      created := 0;
      pools := map[];
      dyn := map[];
      roots := multiset{};
      funcMap := map[];
      names := map[];
      nextDynamicId := maxStatic;
    }
  }
}
