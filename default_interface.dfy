/** `DefaultComponentInterface<T>`: the operations every listed component
    gets unless it specialises `ComponentInterface<T>`. They see only whether
    the component is present; its value stays default-constructed. */
module DefaultInterface {
  import opened MrbValues
  import opened Engine

  /** The pools after `emplace_or_replace<T>(e)`. */
  function Emplaced(pools: Pools, e: Entity, t: int): (r: Pools)
    ensures ComponentsOf(r, e) == ComponentsOf(pools, e) + {t}
    ensures forall x :: x != e ==> ComponentsOf(r, x) == ComponentsOf(pools, x)
  {
    pools[e := ComponentsOf(pools, e) + {t}]
  }

  /** The pools after `remove<T>(e)`. */
  function Erased(pools: Pools, e: Entity, t: int): (r: Pools)
    ensures ComponentsOf(r, e) == ComponentsOf(pools, e) - {t}
    ensures forall x :: x != e ==> ComponentsOf(r, x) == ComponentsOf(pools, x)
  {
    if e in pools then pools[e := pools[e] - {t}] else pools
  }

  /** `has`: true exactly when the entity carries the component. */
  method Has(reg: Registry, e: Entity, t: int) returns (r: Value)
    ensures r == Bool(t in ComponentsOf(reg.pools, e))
  {
    if t in ComponentsOf(reg.pools, e) {
      r := Bool(true);
    } else {
      r := Bool(false);
    }
  }

  /** `get`: the same presence answer as `has`; the component is neither
      created nor returned. */
  method Get(reg: Registry, e: Entity, t: int) returns (r: Value)
    ensures r == Bool(t in ComponentsOf(reg.pools, e))
  {
    if t in ComponentsOf(reg.pools, e) {
      r := Bool(true);
    } else {
      r := Bool(false);
    }
  }

  /** `set`: attaches a default-constructed component, replacing any present
      one, whatever the arguments, and answers true. `DynamicComponents`
      never uses the defaults: it has its own specialisation. */
  method Set(reg: Registry, e: Entity, t: int, argv: seq<Value>) returns (r: Value)
    requires t != reg.dynIndex
    modifies reg`pools
    ensures r == Bool(true)
    ensures reg.pools == Emplaced(old(reg.pools), e, t)
  {
    reg.pools := Emplaced(reg.pools, e, t);
    r := Bool(true);
  }

  /** `remove`: detaches a present component and answers true; otherwise
      answers false and changes nothing. */
  method Remove(reg: Registry, e: Entity, t: int) returns (r: Value)
    requires t != reg.dynIndex
    modifies reg`pools
    ensures r == Bool(t in ComponentsOf(old(reg.pools), e))
    ensures reg.pools == if r.b then Erased(old(reg.pools), e, t) else old(reg.pools)
  {
    if t in ComponentsOf(reg.pools, e) {
      reg.pools := Erased(reg.pools, e, t);
      r := Bool(true);
    } else {
      r := Bool(false);
    }
  }

  /** After `set`, the component is present; after `remove`, it is gone, and
      removing again finds nothing and leaves the pools as they are. */
  lemma SetRemoveCycle(pools: Pools, e: Entity, t: int)
    ensures t in ComponentsOf(Emplaced(pools, e, t), e)
    ensures t !in ComponentsOf(Erased(Emplaced(pools, e, t), e, t), e)
    ensures t !in ComponentsOf(Erased(pools, e, t), e)
    ensures Erased(Erased(pools, e, t), e, t) == Erased(pools, e, t)
  {
    if e in pools {
      assert pools[e] - {t} - {t} == pools[e] - {t};
    }
  }
}
