/** `DynamicComponents`, the per-entity `map<int, value>` that holds every
    script-defined component, and its `ComponentInterface` specialisation.
    Every value it stores is registered as a GC root, and unregistered when it
    is overwritten or erased, so the collector never frees a value an entity
    still holds. */
module DynamicComponents {
  import opened MrbValues
  import opened Engine

  /** `get_or_assign<DynamicComponents>(e)`: an entity without a store gets an
      empty one; no key is added anywhere. */
  function Attached(dyn: DynPool, e: Entity): (r: DynPool)
    ensures r.Keys == dyn.Keys + {e}
    ensures forall x :: StoreOf(r, x) == StoreOf(dyn, x)
  {
    if e in dyn then dyn else dyn[e := map[]]
  }

  /** What `components[k]` reads: the stored value, or, for an absent key, the
      value-initialised `mrb_value` that `operator[]` inserts, which is nil. */
  function Slot(dyn: DynPool, e: Entity, k: int): (v: Value)
    ensures k in StoreOf(dyn, e) ==> v == StoreOf(dyn, e)[k]
    ensures k !in StoreOf(dyn, e) ==> v == Nil
  {
    if k in StoreOf(dyn, e) then StoreOf(dyn, e)[k] else Nil
  }

  /** The stores after `components[k] = v` on entity `e`: that one slot holds
      `v`; every other key and every other entity's store is as before. */
  function Assigned(dyn: DynPool, e: Entity, k: int, v: Value): (r: DynPool)
    ensures r.Keys == dyn.Keys + {e}
    ensures StoreOf(r, e).Keys == StoreOf(dyn, e).Keys + {k} && StoreOf(r, e)[k] == v
    ensures forall j :: j in StoreOf(dyn, e) && j != k ==> StoreOf(r, e)[j] == StoreOf(dyn, e)[j]
    ensures forall x :: x != e ==> StoreOf(r, x) == StoreOf(dyn, x)
  {
    dyn[e := StoreOf(dyn, e)[k := v]]
  }

  /** The stores after erasing key `k` of entity `e`: no store is created,
      that key is gone, and nothing else changes. */
  function Dropped(dyn: DynPool, e: Entity, k: int): (r: DynPool)
    ensures r.Keys == dyn.Keys
    ensures StoreOf(r, e).Keys == StoreOf(dyn, e).Keys - {k}
    ensures forall j :: j in StoreOf(r, e) ==> StoreOf(r, e)[j] == StoreOf(dyn, e)[j]
    ensures forall x :: x != e ==> StoreOf(r, x) == StoreOf(dyn, x)
  {
    if e in dyn then dyn[e := dyn[e] - {k}] else dyn
  }

  /** `get`: the value stored under `k`, or nil. It attaches an empty store to
      an entity that had none, but never adds a key. */
  method Get(reg: Registry, e: Entity, k: int) returns (r: Value)
    modifies reg`dyn
    ensures reg.dyn == Attached(old(reg.dyn), e)
    ensures r == Slot(old(reg.dyn), e, k)
  {
    reg.dyn := Attached(reg.dyn, e);
    var components := reg.dyn[e];
    if k !in components {
      return Nil;
    }
    r := components[k];
  }

  /** `set`: encodes the arguments as one value, unregisters whatever the slot
      held (nil for a fresh key), stores and registers the new value, and
      returns it. */
  method Set(reg: Registry, e: Entity, k: int, argv: seq<Value>) returns (r: Value)
    modifies reg`dyn, reg`roots
    ensures r == PackArgs(argv)
    ensures reg.dyn == Assigned(old(reg.dyn), e, k, r)
    ensures reg.roots == old(reg.roots) - multiset{Slot(old(reg.dyn), e, k)} + multiset{r}
  {
    var dyn := Attached(reg.dyn, e);
    var components := dyn[e];
    // `components[type]` inserts a nil slot for an absent key
    var prev := if k in components then components[k] else Nil;
    assert prev == Slot(reg.dyn, e, k);
    components := components[k := prev];
    var roots := reg.roots - multiset{prev};
    var v;
    if |argv| == 0 {
      v := Nil;
    } else if |argv| == 1 {
      v := argv[0];
    } else {
      v := Arr(argv);
    }
    components := components[k := v];
    assert components == StoreOf(reg.dyn, e)[k := v];
    assert dyn[e := components] == Assigned(reg.dyn, e, k, v);
    reg.dyn, reg.roots := dyn[e := components], roots + multiset{v};
    r := v;
  }

  /** `has`: whether `k` is a key of the entity's store, attaching an empty
      store to an entity that had none. */
  method Has(reg: Registry, e: Entity, k: int) returns (r: Value)
    modifies reg`dyn
    ensures reg.dyn == Attached(old(reg.dyn), e)
    ensures r == Bool(k in StoreOf(old(reg.dyn), e))
  {
    reg.dyn := Attached(reg.dyn, e);
    if k !in reg.dyn[e] {
      return Bool(false);
    }
    r := Bool(true);
  }

  /** `remove`: false, with nothing created or changed, when the entity has no
      store or the key is absent; otherwise unregisters the value, erases the
      key and answers true. */
  method Remove(reg: Registry, e: Entity, k: int) returns (r: Value)
    modifies reg`dyn, reg`roots
    ensures r == Bool(k in StoreOf(old(reg.dyn), e))
    ensures reg.dyn == if r.b then Dropped(old(reg.dyn), e, k) else old(reg.dyn)
    ensures reg.roots == if r.b then old(reg.roots) - multiset{Slot(old(reg.dyn), e, k)} else old(reg.roots)
  {
    if e in reg.dyn {
      var components := reg.dyn[e];
      if k !in components {
        return Bool(false);
      }
      reg.roots := reg.roots - multiset{components[k]};
      reg.dyn := reg.dyn[e := components - {k}];
      return Bool(true);
    }
    r := Bool(false);
  }

  /** After `set`, the key is present and reads back as the value `set`
      returned; after `remove`, it is absent. */
  lemma SetThenGet(dyn: DynPool, e: Entity, k: int, v: Value)
    ensures k in StoreOf(Assigned(dyn, e, k, v), e)
    ensures Slot(Assigned(dyn, e, k, v), e, k) == v
    ensures k !in StoreOf(Dropped(Assigned(dyn, e, k, v), e, k), e)
  {
  }

  // ---------------------------------------------------------------------
  // Root bookkeeping

  /** The slots holding `v`. */
  ghost function Holders(dyn: DynPool, v: Value): set<(Entity, int)>
  {
    set e, k | e in dyn && k in dyn[e] && dyn[e][k] == v :: (e, k)
  }

  /** Every stored heap object is registered at least as often as it is
      stored. */
  ghost predicate Balanced(dyn: DynPool, roots: multiset<Value>)
  {
    forall v :: IsObject(v) ==> |Holders(dyn, v)| <= roots[v]
  }

  /** Registrations of `v` that no stored slot accounts for. */
  ghost function Surplus(dyn: DynPool, roots: multiset<Value>, v: Value): int
  {
    roots[v] - |Holders(dyn, v)|
  }

  lemma HoldersAt(dyn: DynPool, v: Value, e: Entity, k: int)
    ensures (e, k) in Holders(dyn, v) <==> k in StoreOf(dyn, e) && StoreOf(dyn, e)[k] == v
  {
    if k in StoreOf(dyn, e) && StoreOf(dyn, e)[k] == v {
      assert e in dyn && k in dyn[e] && dyn[e][k] == v;
    }
  }

  /** Assigning slot `(e, k)` moves it from the holders of its old value to
      the holders of the new one. */
  lemma {:induction false} HoldersAfterAssign(dyn: DynPool, e: Entity, k: int, w: Value, v: Value)
    ensures Holders(Assigned(dyn, e, k, w), v) == (Holders(dyn, v) - {(e, k)}) + (if w == v then {(e, k)} else {})
  {
    var dyn' := Assigned(dyn, e, k, w);
    forall p | p in Holders(dyn', v)
      ensures p in (Holders(dyn, v) - {(e, k)}) + (if w == v then {(e, k)} else {})
    {
      HoldersAt(dyn', v, p.0, p.1);
      HoldersAt(dyn, v, p.0, p.1);
    }
    forall p | p in (Holders(dyn, v) - {(e, k)}) + (if w == v then {(e, k)} else {})
      ensures p in Holders(dyn', v)
    {
      HoldersAt(dyn', v, p.0, p.1);
      HoldersAt(dyn, v, p.0, p.1);
    }
  }

  /** Erasing slot `(e, k)` removes it from the holders of its value. */
  lemma {:induction false} HoldersAfterDrop(dyn: DynPool, e: Entity, k: int, v: Value)
    ensures Holders(Dropped(dyn, e, k), v) == Holders(dyn, v) - {(e, k)}
  {
    var dyn' := Dropped(dyn, e, k);
    forall p | p in Holders(dyn', v)
      ensures p in Holders(dyn, v) - {(e, k)}
    {
      HoldersAt(dyn', v, p.0, p.1);
      HoldersAt(dyn, v, p.0, p.1);
    }
    forall p | p in Holders(dyn, v) - {(e, k)}
      ensures p in Holders(dyn', v)
    {
      HoldersAt(dyn', v, p.0, p.1);
      HoldersAt(dyn, v, p.0, p.1);
    }
  }

  /** Attaching an empty store holds no value. */
  lemma {:induction false} HoldersAfterAttach(dyn: DynPool, e: Entity, v: Value)
    ensures Holders(Attached(dyn, e), v) == Holders(dyn, v)
  {
    var dyn' := Attached(dyn, e);
    forall p | p in Holders(dyn', v)
      ensures p in Holders(dyn, v)
    {
      HoldersAt(dyn', v, p.0, p.1);
      HoldersAt(dyn, v, p.0, p.1);
    }
    forall p | p in Holders(dyn, v)
      ensures p in Holders(dyn', v)
    {
      HoldersAt(dyn', v, p.0, p.1);
      HoldersAt(dyn, v, p.0, p.1);
    }
  }

  /** How many slots hold `v` after assigning `w` to slot `(e, k)`. */
  lemma {:induction false} HoldersCountAfterAssign(dyn: DynPool, e: Entity, k: int, w: Value, v: Value)
    ensures |Holders(Assigned(dyn, e, k, w), v)| ==
      |Holders(dyn, v)| - (if (e, k) in Holders(dyn, v) then 1 else 0) + (if w == v then 1 else 0)
  {
    var holders := Holders(dyn, v);
    HoldersAfterAssign(dyn, e, k, w, v);
    if (e, k) in holders {
      assert |holders - {(e, k)}| == |holders| - 1;
    } else {
      assert holders - {(e, k)} == holders;
    }
  }

  /** For one heap object `v`: storing `w` in slot `(e, k)`, unregistering
      the slot's previous content and registering `w` leaves `v`'s spare
      registrations as they were. */
  lemma {:induction false} SetKeepsRootsAt(dyn: DynPool, roots: multiset<Value>, e: Entity, k: int, w: Value, v: Value)
    requires IsObject(v) && |Holders(dyn, v)| <= roots[v]
    ensures Surplus(Assigned(dyn, e, k, w), roots - multiset{Slot(dyn, e, k)} + multiset{w}, v) == Surplus(dyn, roots, v)
  {
    var prev := Slot(dyn, e, k);
    HoldersCountAfterAssign(dyn, e, k, w, v);
    HoldersAt(dyn, v, e, k);
    if (e, k) in Holders(dyn, v) {
      assert prev == v && roots[v] >= 1;
      assert (roots - multiset{prev})[v] == roots[v] - 1;
    } else {
      assert prev != v;
      assert (roots - multiset{prev})[v] == roots[v];
    }
  }

  /** The register/unregister pairing of `set`: storing `w` in slot `(e, k)`
      while unregistering the slot's previous content and registering `w`
      keeps every stored object rooted and leaves no heap object with more or
      fewer spare registrations than before (no leak, no premature release). */
  lemma SetKeepsRoots(dyn: DynPool, roots: multiset<Value>, e: Entity, k: int, w: Value)
    requires Balanced(dyn, roots)
    ensures Balanced(Assigned(dyn, e, k, w), roots - multiset{Slot(dyn, e, k)} + multiset{w})
    ensures forall v :: IsObject(v) ==>
      Surplus(Assigned(dyn, e, k, w), roots - multiset{Slot(dyn, e, k)} + multiset{w}, v) == Surplus(dyn, roots, v)
  {
    forall v | IsObject(v)
      ensures Surplus(Assigned(dyn, e, k, w), roots - multiset{Slot(dyn, e, k)} + multiset{w}, v) == Surplus(dyn, roots, v)
    {
      SetKeepsRootsAt(dyn, roots, e, k, w, v);
    }
  }

  /** For one heap object `v`: erasing the present slot `(e, k)` and
      unregistering its value leaves `v`'s spare registrations as they were. */
  lemma {:induction false} RemoveKeepsRootsAt(dyn: DynPool, roots: multiset<Value>, e: Entity, k: int, v: Value)
    requires IsObject(v) && |Holders(dyn, v)| <= roots[v]
    requires k in StoreOf(dyn, e)
    ensures Surplus(Dropped(dyn, e, k), roots - multiset{Slot(dyn, e, k)}, v) == Surplus(dyn, roots, v)
  {
    HoldersAfterDrop(dyn, e, k, v);
    HoldersAt(dyn, v, e, k);
    if v == Slot(dyn, e, k) {
      assert |Holders(dyn, v) - {(e, k)}| == |Holders(dyn, v)| - 1;
    } else {
      assert Holders(dyn, v) - {(e, k)} == Holders(dyn, v);
    }
  }

  /** The unregistration of `remove`: erasing a present slot and unregistering
      its value keeps the balance of every heap object. */
  lemma RemoveKeepsRoots(dyn: DynPool, roots: multiset<Value>, e: Entity, k: int)
    requires Balanced(dyn, roots)
    requires k in StoreOf(dyn, e)
    ensures Balanced(Dropped(dyn, e, k), roots - multiset{Slot(dyn, e, k)})
    ensures forall v :: IsObject(v) ==>
      Surplus(Dropped(dyn, e, k), roots - multiset{Slot(dyn, e, k)}, v) == Surplus(dyn, roots, v)
  {
    forall v | IsObject(v)
      ensures Surplus(Dropped(dyn, e, k), roots - multiset{Slot(dyn, e, k)}, v) == Surplus(dyn, roots, v)
    {
      RemoveKeepsRootsAt(dyn, roots, e, k, v);
    }
  }

  /** `get` and `has` attach at most an empty store, which holds nothing. */
  lemma AttachKeepsRoots(dyn: DynPool, roots: multiset<Value>, e: Entity)
    requires Balanced(dyn, roots)
    ensures Balanced(Attached(dyn, e), roots)
  {
    forall v | IsObject(v)
      ensures |Holders(Attached(dyn, e), v)| <= roots[v]
    {
      HoldersAfterAttach(dyn, e, v);
    }
  }
}
