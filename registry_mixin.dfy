/** `RegistryMixin`: the methods of the script-level `Registry` class. Every
    one of them first finds the registry through the object's weak pointer
    and answers nil when it is unset. `has?`, `get`, `set` and `remove` unpack
    `(entity, type, *args)`, look the type up in the function table and call
    the operation found there. `component` and `all_components` work on the
    name table, `entities` runs the query, and `mrb_init` builds the tables
    and binds the object to the registry. */
module RegistryMixin {
  import opened MrbValues
  import opened FunctionMap
  import opened Engine
  import Defaults = DefaultInterface
  import Dynamic = DynamicComponents
  import opened ComponentNames
  import opened Query

  // ---------------------------------------------------------------------
  // Dispatch

  /** What `mrb_registry_unpack` hands to a forwarder: the entity, cast to
      32 bits; the requested type as the script gave it; the remaining
      arguments; and the table entry the type selected. */
  datatype Unpacked = Unpacked(entity: Entity, id: int, argv: seq<Value>, fns: FunctionSet)

  /** The table key of a requested type: `DynamicComponents`' index for every
      id from `max_static_components` on, the id itself below that. */
  function LookupKey(id: int, maxStatic: int, dynIndex: int): int
  {
    if id >= maxStatic then dynIndex else id
  }

  /** `mrb_registry_unpack`: fewer than two leading integers, or a type with
      no table entry, is a miss. */
  function Unpack(args: seq<Value>, funcMap: ComponentFunctionMap, maxStatic: int, dynIndex: int): (r: Option<Unpacked>)
    ensures r.Some? <==>
      |args| >= 2 && args[0].Int? && args[1].Int? && LookupKey(args[1].i, maxStatic, dynIndex) in funcMap
    ensures r.Some? ==>
      && 0 <= r.value.entity < 0x1_0000_0000
      && args == [Int(args[0].i), Int(r.value.id)] + r.value.argv
      && r.value.fns == funcMap[LookupKey(r.value.id, maxStatic, dynIndex)]
  {
    if |args| < 2 || !args[0].Int? || !args[1].Int? then None
    else
      var key := LookupKey(args[1].i, maxStatic, dynIndex);
      if key in funcMap then Some(Unpacked(ToU32(args[0].i), args[1].i, args[2..], funcMap[key]))
      else None
  }

  /** The field of the record a forwarder calls. */
  function Select(fs: FunctionSet, op: Op): Fn
  {
    match op
    case HasOp => fs.has
    case GetOp => fs.get
    case RemoveOp => fs.remove
    case SetOp => fs.assign
  }

  /** The answer and the new state of one table operation on entity `e`. The
      defaults work on the component their record was built for; the
      `DynamicComponents` operations use the requested type, as a 32-bit
      key, to pick the slot. */
  function Apply(s: State, fn: Fn, e: Entity, id: int, argv: seq<Value>): (r: (Value, State))
    ensures r.1 == s.(pools := r.1.pools, dyn := r.1.dyn, roots := r.1.roots)
    ensures forall x :: x != e ==>
      ComponentsOf(r.1.pools, x) == ComponentsOf(s.pools, x) && StoreOf(r.1.dyn, x) == StoreOf(s.dyn, x)
    ensures fn.iface.DefaultInterface? ==> r.1.dyn == s.dyn && r.1.roots == s.roots
    ensures fn.iface.DynamicInterface? ==> r.1.pools == s.pools
    ensures fn.op == HasOp || fn.op == GetOp ==>
      && r.1.pools == s.pools && r.1.roots == s.roots
      && forall x :: StoreOf(r.1.dyn, x) == StoreOf(s.dyn, x)
  {
    match fn.iface
    case DefaultInterface(c) =>
      var present := c in ComponentsOf(s.pools, e);
      (match fn.op
       case HasOp => (Bool(present), s)
       case GetOp => (Bool(present), s)
       case SetOp => (Bool(true), s.(pools := Defaults.Emplaced(s.pools, e, c)))
       case RemoveOp =>
         if present then (Bool(true), s.(pools := Defaults.Erased(s.pools, e, c)))
         else (Bool(false), s))
    case DynamicInterface =>
      var k := ToU32(id);
      var present := k in StoreOf(s.dyn, e);
      (match fn.op
       case HasOp => (Bool(present), s.(dyn := Dynamic.Attached(s.dyn, e)))
       case GetOp => (Dynamic.Slot(s.dyn, e, k), s.(dyn := Dynamic.Attached(s.dyn, e)))
       case SetOp =>
         var v := PackArgs(argv);
         (v, s.(dyn := Dynamic.Assigned(s.dyn, e, k, v),
                roots := s.roots - multiset{Dynamic.Slot(s.dyn, e, k)} + multiset{v}))
       case RemoveOp =>
         if present then
           (Bool(true), s.(dyn := Dynamic.Dropped(s.dyn, e, k),
                           roots := s.roots - multiset{Dynamic.Slot(s.dyn, e, k)}))
         else (Bool(false), s))
  }

  /** `mrb_registry_has`, `_get`, `_set` and `_remove` on a registry in state
      `s`: nil with nothing changed on a miss, otherwise the operation the
      table selected. */
  function Forward(s: State, maxStatic: int, dynIndex: int, op: Op, args: seq<Value>): (r: (Value, State))
    ensures r.1 == s.(pools := r.1.pools, dyn := r.1.dyn, roots := r.1.roots)
    ensures forall x :: (|args| == 0 || !args[0].Int? || x != ToU32(args[0].i)) ==>
      ComponentsOf(r.1.pools, x) == ComponentsOf(s.pools, x) && StoreOf(r.1.dyn, x) == StoreOf(s.dyn, x)
  {
    match Unpack(args, s.funcMap, maxStatic, dynIndex)
    case None => (Nil, s)
    case Some(u) => Apply(s, Select(u.fns, op), u.entity, u.id, u.argv)
  }

  /** `fn->op(mrb, *ptr, (entt::entity)entity, type, ...)`: the call through
      the function pointer. The defaults of `DynamicComponents` are never in
      the table, since it has its own specialisation. */
  method Call(reg: Registry, fn: Fn, e: Entity, id: int, argv: seq<Value>) returns (r: Value)
    requires fn.iface.DefaultInterface? ==> fn.iface.component != reg.dynIndex
    modifies reg`pools, reg`dyn, reg`roots
    ensures (r, reg.Snapshot()) == Apply(old(reg.Snapshot()), fn, e, id, argv)
  {
    match fn.iface
    case DefaultInterface(c) =>
      match fn.op {
        case HasOp => r := Defaults.Has(reg, e, c);
        case GetOp => r := Defaults.Get(reg, e, c);
        case SetOp => r := Defaults.Set(reg, e, c, argv);
        case RemoveOp => r := Defaults.Remove(reg, e, c);
      }
    case DynamicInterface =>
      var k := ToU32(id);
      match fn.op {
        case HasOp => r := Dynamic.Has(reg, e, k);
        case GetOp => r := Dynamic.Get(reg, e, k);
        case SetOp => r := Dynamic.Set(reg, e, k, argv);
        case RemoveOp => r := Dynamic.Remove(reg, e, k);
      }
  }

  /** The dispatch rule. A call is a miss exactly when it lacks two leading
      integers or its lookup key has no entry, and a miss answers nil and
      changes nothing. Otherwise the entity is the first integer cast to 32
      bits, the requested type is passed on unchanged, and in a well-formed
      table every id from `max_static_components` on reaches the
      `DynamicComponents` record while a smaller id reaches its own. */
  lemma DispatchRule(s: State, maxStatic: int, dynIndex: int, op: Op, args: seq<Value>)
    requires WellFormed(s.funcMap, dynIndex)
    ensures Unpack(args, s.funcMap, maxStatic, dynIndex).Some? <==>
      |args| >= 2 && args[0].Int? && args[1].Int? && LookupKey(args[1].i, maxStatic, dynIndex) in s.funcMap
    ensures Unpack(args, s.funcMap, maxStatic, dynIndex).None? ==> Forward(s, maxStatic, dynIndex, op, args) == (Nil, s)
    ensures Unpack(args, s.funcMap, maxStatic, dynIndex).Some? ==>
      var u := Unpack(args, s.funcMap, maxStatic, dynIndex).value;
      && u.entity == ToU32(args[0].i) && u.id == args[1].i && u.argv == args[2..]
      && (args[1].i >= maxStatic ==> u.fns == EntryFor(DynamicInterface))
      && (args[1].i < maxStatic && args[1].i != dynIndex ==> u.fns == EntryFor(DefaultInterface(args[1].i)))
  {
  }

  // ---------------------------------------------------------------------
  // What every script call keeps

  /** The registry's standing invariant: the function table holds the right
      record under every key, the name table never handed out an id twice,
      and every stored heap object is a GC root. */
  ghost predicate Inv(s: State, maxStatic: int, dynIndex: int)
  {
    && WellFormed(s.funcMap, dynIndex)
    && Issued(NameTable(s.names, s.nextDynamicId), maxStatic)
    && Dynamic.Balanced(s.dyn, s.roots)
  }

  /** A table operation touches only the pools, the stores and the roots, and
      keeps every stored object rooted. */
  lemma {:induction false} ApplyKeepsInv(s: State, maxStatic: int, dynIndex: int, fn: Fn, e: Entity, id: int, argv: seq<Value>)
    requires Inv(s, maxStatic, dynIndex)
    ensures var s' := Apply(s, fn, e, id, argv).1;
      && Inv(s', maxStatic, dynIndex)
      && s'.created == s.created && s'.funcMap == s.funcMap
      && s'.names == s.names && s'.nextDynamicId == s.nextDynamicId
  {
    if fn.iface.DynamicInterface? {
      var k := ToU32(id);
      match fn.op {
        case HasOp => Dynamic.AttachKeepsRoots(s.dyn, s.roots, e);
        case GetOp => Dynamic.AttachKeepsRoots(s.dyn, s.roots, e);
        case SetOp => Dynamic.SetKeepsRoots(s.dyn, s.roots, e, k, PackArgs(argv));
        case RemoveOp =>
          if k in StoreOf(s.dyn, e) {
            Dynamic.RemoveKeepsRoots(s.dyn, s.roots, e, k);
          }
      }
    }
  }

  /** Every forwarded call keeps the invariant. */
  lemma ForwardKeepsInv(s: State, maxStatic: int, dynIndex: int, op: Op, args: seq<Value>)
    requires Inv(s, maxStatic, dynIndex)
    ensures Inv(Forward(s, maxStatic, dynIndex, op, args).1, maxStatic, dynIndex)
  {
    var u := Unpack(args, s.funcMap, maxStatic, dynIndex);
    if u.Some? {
      ApplyKeepsInv(s, maxStatic, dynIndex, Select(u.value.fns, op), u.value.entity, u.value.id, u.value.argv);
    }
  }

  // ---------------------------------------------------------------------
  // Operations seen from a script

  /** After a successful `set e, t, *args`, `has? e, t` answers true. `get e,
      t` gives back the value `set` returned when `t` reaches the dynamic
      store, and true (the presence answer of the defaults) otherwise. */
  lemma {:induction false} SetThenHasGet(s: State, maxStatic: int, dynIndex: int, e: int, t: int, argv: seq<Value>)
    requires WellFormed(s.funcMap, dynIndex)
    requires LookupKey(t, maxStatic, dynIndex) in s.funcMap
    ensures var (v, s1) := Forward(s, maxStatic, dynIndex, SetOp, [Int(e), Int(t)] + argv);
      && v == (if LookupKey(t, maxStatic, dynIndex) == dynIndex then PackArgs(argv) else Bool(true))
      && Forward(s1, maxStatic, dynIndex, HasOp, [Int(e), Int(t)]).0 == Bool(true)
      && Forward(s1, maxStatic, dynIndex, GetOp, [Int(e), Int(t)]).0 == v
  {
    var args := [Int(e), Int(t)] + argv;
    assert args[2..] == argv;
    var key := LookupKey(t, maxStatic, dynIndex);
    var s1 := Forward(s, maxStatic, dynIndex, SetOp, args).1;
    assert s1.funcMap == s.funcMap;
    if key == dynIndex {
      Dynamic.SetThenGet(s.dyn, ToU32(e), ToU32(t), PackArgs(argv));
    }
  }

  /** After `remove e, t`, `has? e, t` answers false, and a second `remove`
      answers false and changes nothing. The first `remove` answered what
      `has?` would have answered before it. */
  lemma {:induction false} RemoveThenHas(s: State, maxStatic: int, dynIndex: int, e: int, t: int)
    requires WellFormed(s.funcMap, dynIndex)
    requires LookupKey(t, maxStatic, dynIndex) in s.funcMap
    ensures var (r, s1) := Forward(s, maxStatic, dynIndex, RemoveOp, [Int(e), Int(t)]);
      && r == Forward(s, maxStatic, dynIndex, HasOp, [Int(e), Int(t)]).0
      && Forward(s1, maxStatic, dynIndex, HasOp, [Int(e), Int(t)]).0 == Bool(false)
      && Forward(s1, maxStatic, dynIndex, RemoveOp, [Int(e), Int(t)]) == (Bool(false), s1)
  {
    var args := [Int(e), Int(t)];
    var key := LookupKey(t, maxStatic, dynIndex);
    var s1 := Forward(s, maxStatic, dynIndex, RemoveOp, args).1;
    assert s1.funcMap == s.funcMap;
    if key != dynIndex {
      Defaults.SetRemoveCycle(s.pools, ToU32(e), key);
    }
  }

  /** The script-level values of a list of type ids. */
  function IntValues(ids: seq<int>): (vs: seq<Value>)
    ensures |vs| == |ids|
    ensures forall i :: 0 <= i < |ids| ==> vs[i] == Int(ids[i])
  {
    seq(|ids|, i requires 0 <= i < |ids| => Int(ids[i]))
  }

  /** Whether entity `e` carries the component a script id names: a key of
      its dynamic store from `max_static_components` on, the static
      component below that. */
  predicate Present(pools: Pools, dyn: DynPool, maxStatic: int, e: Entity, t: int)
  {
    if t >= maxStatic then ToU32(t) in StoreOf(dyn, e) else t in ComponentsOf(pools, e)
  }

  /** The query matches an entity exactly when it carries every id asked
      for, provided the static ids are genuine component indices. */
  lemma {:induction false} MatchesIffEachPresent(pools: Pools, dyn: DynPool, maxStatic: int, dynIndex: int, ids: seq<int>, e: Entity)
    requires maxStatic <= U32Range
    requires ids != []
    requires forall t :: t in ids && t < maxStatic ==> 0 <= t && t != dynIndex
    ensures e in Matches(pools, dyn, maxStatic, dynIndex, IntValues(ids)) <==>
      forall t :: t in ids ==> Present(pools, dyn, maxStatic, e, t)
  {
    var args := IntValues(ids);
    SplitCoversIntegers(args, maxStatic);
    MatchesExactly(pools, dyn, maxStatic, dynIndex, args, e);
    var st, dy := StaticIds(args, maxStatic), DynamicIds(args, maxStatic);
    if e in Matches(pools, dyn, maxStatic, dynIndex, args) {
      forall t | t in ids
        ensures Present(pools, dyn, maxStatic, e, t)
      {
        var i :| 0 <= i < |ids| && ids[i] == t;
        assert args[i] == Int(t);
        if t < maxStatic {
          assert ToU32(t) in st;
        } else {
          assert ToU32(t) in dy;
        }
      }
    }
    if forall t :: t in ids ==> Present(pools, dyn, maxStatic, e, t) {
      assert args[0] == Int(ids[0]);
      if ids[0] < maxStatic {
        assert ToU32(ids[0]) in st;
      } else {
        assert ToU32(ids[0]) in dy;
      }
      forall x | x in st
        ensures HasType(pools, dyn, dynIndex, e, x)
      {
        var i :| 0 <= i < |args| && args[i].Int? && args[i].i < maxStatic && ToU32(args[i].i) == x;
        assert args[i] == Int(ids[i]) && ids[i] in ids;
        assert Present(pools, dyn, maxStatic, e, ids[i]);
      }
      forall d | d in dy
        ensures d in StoreOf(dyn, e)
      {
        var i :| 0 <= i < |args| && args[i].Int? && args[i].i >= maxStatic && ToU32(args[i].i) == d;
        assert args[i] == Int(ids[i]) && ids[i] in ids;
        assert Present(pools, dyn, maxStatic, e, ids[i]);
      }
      if dy != [] {
        assert dy[0] in StoreOf(dyn, e);
      }
    }
  }

  /** `has? e, t` for an id that dispatches: true exactly when the entity
      carries the component the id names. */
  lemma HasAnswersPresent(s: State, maxStatic: int, dynIndex: int, e: Entity, t: int)
    requires WellFormed(s.funcMap, dynIndex)
    requires e < U32Range
    requires if t >= maxStatic then dynIndex in s.funcMap else t != dynIndex && t in s.funcMap
    ensures Forward(s, maxStatic, dynIndex, HasOp, [Int(e), Int(t)]).0 == Bool(Present(s.pools, s.dyn, maxStatic, e, t))
  {
  }

  /** `entities` and `has?` agree. For a non-empty list of ids that each
      either lie from `max_static_components` on (with `DynamicComponents`
      in the table) or name a listed static component, an entity is yielded
      exactly when `has?` answers true for it and every one of the ids. */
  lemma QueryAgreesWithHas(s: State, maxStatic: int, dynIndex: int, ids: seq<int>, e: Entity)
    requires WellFormed(s.funcMap, dynIndex)
    requires e < U32Range && maxStatic <= U32Range
    requires ids != []
    requires forall t :: t in ids ==>
      if t >= maxStatic then dynIndex in s.funcMap else 0 <= t && t != dynIndex && t in s.funcMap
    ensures e in Matches(s.pools, s.dyn, maxStatic, dynIndex, IntValues(ids)) <==>
      forall t :: t in ids ==> Forward(s, maxStatic, dynIndex, HasOp, [Int(e), Int(t)]).0 == Bool(true)
  {
    MatchesIffEachPresent(s.pools, s.dyn, maxStatic, dynIndex, ids, e);
    forall t | t in ids
      ensures Forward(s, maxStatic, dynIndex, HasOp, [Int(e), Int(t)]).0 == Bool(Present(s.pools, s.dyn, maxStatic, e, t))
    {
      HasAnswersPresent(s, maxStatic, dynIndex, e, t);
    }
  }

  /** Where the two disagree: the raw index of `DynamicComponents`. With
      `DynamicComponents` at index 0 and `max_static_components` at 32, an
      entity holding only an empty store is yielded by `entities 0`, which
      asks for the store itself, while `has? 5, 0` asks the store for key 0
      and answers false. */
  lemma QueryDisagreesOnDynIndex(s: State)
    requires s.funcMap == map[0 := EntryFor(DynamicInterface)] && s.dyn == map[5 := map[]]
    ensures 5 in Matches(s.pools, s.dyn, 32, 0, IntValues([0]))
    ensures Forward(s, 32, 0, HasOp, [Int(5), Int(0)]).0 == Bool(false)
  {
    var args := IntValues([0]);
    assert args == [Int(0)];
    assert args[..0] == [];
    assert StaticIds(args, 32) == [ToU32(0)] && ToU32(0) == 0;
    assert DynamicIds(args, 32) == [];
    assert HasType(s.pools, s.dyn, 0, 5, 0);
    MatchesExactly(s.pools, s.dyn, 32, 0, args, 5);
    var call := [Int(5), Int(0)];
    assert ToU32(5) == 5;
    assert Unpack(call, s.funcMap, 32, 0) == Some(Unpacked(5, 0, [], EntryFor(DynamicInterface)));
    assert StoreOf(s.dyn, 5) == map[];
  }

  // ---------------------------------------------------------------------
  // Initialisation

  /** A component listed in `mrb_init<Components...>`: its type name and its
      engine type index. */
  datatype StaticComponent = StaticComponent(name: string, index: int)

  /** One type has one name: two entries with the same index carry the same
      name. */
  ghost predicate OneNamePerType(components: seq<StaticComponent>)
  {
    forall i, j :: 0 <= i < |components| && 0 <= j < |components| && components[i].index == components[j].index ==>
      components[i].name == components[j].name
  }

  /** The name table after `mrb_init_component_name` for each listed
      component in turn. */
  function Seeded(names: map<string, int>, components: seq<StaticComponent>): (r: map<string, int>)
    ensures forall n :: n in r <==> n in names || exists i :: 0 <= i < |components| && components[i].name == n
    ensures forall n :: n in names && (forall i :: 0 <= i < |components| ==> components[i].name != n) ==> r[n] == names[n]
    decreases |components|
  {
    if components == [] then names
    else
      var front := components[..|components| - 1];
      var last := components[|components| - 1];
      assert forall i :: 0 <= i < |front| ==> front[i] == components[i];
      Seeded(names, front)[last.name := last.index]
  }

  /** A component whose name is listed once is bound to its own type index,
      which is how `component` later finds a static component's record. */
  lemma {:induction false} SeededBindsListed(names: map<string, int>, components: seq<StaticComponent>, i: nat)
    requires i < |components|
    requires forall j :: 0 <= j < |components| && components[j].name == components[i].name ==> j == i
    ensures components[i].name in Seeded(names, components)
    ensures Seeded(names, components)[components[i].name] == components[i].index
    decreases |components|
  {
    var front := components[..|components| - 1];
    var last := components[|components| - 1];
    if i < |components| - 1 {
      assert last.name != components[i].name;
      assert front[i] == components[i];
      forall j | 0 <= j < |front| && front[j].name == front[i].name
        ensures j == i
      {
        assert front[j] == components[j];
      }
      SeededBindsListed(names, front, i);
    }
  }

  function Indices(components: seq<StaticComponent>): (r: seq<int>)
    ensures |r| == |components|
    ensures forall i :: 0 <= i < |r| ==> r[i] == components[i].index
  {
    seq(|components|, i requires 0 <= i < |components| => components[i].index)
  }

  /** Seeding static names below `max_static_components` into a table whose
      names are all dynamic keeps ids distinct: every static binding it makes
      is one of the listed components. */
  lemma {:induction false} SeededKeepsIssued(names: map<string, int>, next: int, components: seq<StaticComponent>, maxStatic: int)
    requires Issued(NameTable(names, next), maxStatic)
    requires forall n :: n in names ==> names[n] >= maxStatic
    requires forall i :: 0 <= i < |components| ==> components[i].index < maxStatic
    requires OneNamePerType(components)
    ensures Issued(NameTable(Seeded(names, components), next), maxStatic)
    ensures forall n :: n in Seeded(names, components) && Seeded(names, components)[n] < maxStatic ==>
      StaticComponent(n, Seeded(names, components)[n]) in components
    decreases |components|
  {
    if components != [] {
      var front := components[..|components| - 1];
      var last := components[|components| - 1];
      assert forall i :: 0 <= i < |front| ==> front[i] == components[i];
      SeededKeepsIssued(names, next, front, maxStatic);
      var s := Seeded(names, front);
      var s' := s[last.name := last.index];
      assert Seeded(names, components) == s';
      forall n1, n2 | n1 in s' && n2 in s' && s'[n1] == s'[n2]
        ensures n1 == n2
      {
        if n1 != n2 && (n1 == last.name || n2 == last.name) {
          assert false;
        }
      }
      forall n | n in s' && s'[n] < maxStatic
        ensures StaticComponent(n, s'[n]) in components
      {
        if n != last.name {
          assert StaticComponent(n, s[n]) in front;
        }
      }
    }
  }

  /** What the static-index assumption rules out. A component whose type
      index is not below `max_static_components` is seeded as it is, so its
      name shares an id with the first dynamic name, and a call with that id
      is routed to the `DynamicComponents` record, not its own. */
  lemma StaticIndexCollides()
    ensures var nt := NameTable(Seeded(map[], [StaticComponent("Transform", 32)]), 32);
      && nt.ids["Transform"] == 32
      && Component(nt, "Velocity").0 == 32
      && LookupKey(32, 32, 0) == 0
  {
    SeededBindsListed(map[], [StaticComponent("Transform", 32)], 0);
    assert "Velocity" != "Transform";
  }

  /** Installing the records and seeding the names keeps the invariant. */
  lemma InitKeepsInv(s: State, maxStatic: int, dynIndex: int, components: seq<StaticComponent>)
    requires Inv(s, maxStatic, dynIndex)
    requires forall n :: n in s.names ==> s.names[n] >= maxStatic
    requires forall i :: 0 <= i < |components| ==> components[i].index < maxStatic
    requires OneNamePerType(components)
    ensures Inv(s.(funcMap := Installed(s.funcMap, [dynIndex] + Indices(components), dynIndex),
                   names := Seeded(s.names, components)), maxStatic, dynIndex)
  {
    InstalledEntries(s.funcMap, [dynIndex] + Indices(components), dynIndex);
    SeededKeepsIssued(s.names, s.nextDynamicId, components, maxStatic);
  }

  /** `mrb_init_component_name<Component>`: binds the component's type name to
      its type index in the name table. (The matching `Registry::<Name>`
      constant is not modelled.) */
  method InitComponentName(reg: Registry, c: StaticComponent)
    modifies reg`names
    ensures reg.names == old(reg.names)[c.name := c.index]
  {
    reg.names := reg.names[c.name := c.index];
  }

  /** `mrb_init<Components...>`: installs the records of `DynamicComponents`
      and of every listed component, seeds their names, and binds a new
      script-level `Registry` object to the registry. Every listed type index
      lies below `max_static_components`, one type has one name, and no
      static name has been seeded before. */
  method Init(reg: Registry, components: seq<StaticComponent>) returns (obj: RegistryObject)
    requires Inv(reg.Snapshot(), reg.maxStatic, reg.dynIndex)
    requires forall n :: n in reg.names ==> reg.names[n] >= reg.maxStatic
    requires forall i :: 0 <= i < |components| ==> components[i].index < reg.maxStatic
    requires OneNamePerType(components)
    modifies reg`funcMap, reg`names
    ensures fresh(obj) && obj.target == reg && obj.Valid()
    ensures reg.funcMap == Installed(old(reg.funcMap), [reg.dynIndex] + Indices(components), reg.dynIndex)
    ensures reg.names == Seeded(old(reg.names), components)
    ensures forall i :: 0 <= i < |components| && (forall j :: 0 <= j < |components| && components[j].name == components[i].name ==> j == i) ==>
      components[i].name in reg.names && reg.names[components[i].name] == components[i].index
  {
    ghost var s0 := reg.Snapshot();
    InitKeepsInv(s0, reg.maxStatic, reg.dynIndex, components);
    reg.funcMap := InitFunctionMap(reg.funcMap, [reg.dynIndex] + Indices(components), reg.dynIndex);
    for i := 0 to |components|
      invariant reg.names == Seeded(old(reg.names), components[..i])
      modifies reg`names
    {
      assert components[..i + 1][..i] == components[..i];
      InitComponentName(reg, components[i]);
    }
    assert components[..|components|] == components;
    assert reg.Snapshot() == s0.(funcMap := reg.funcMap, names := reg.names);
    forall i | 0 <= i < |components| && (forall j :: 0 <= j < |components| && components[j].name == components[i].name ==> j == i)
      ensures components[i].name in reg.names && reg.names[components[i].name] == components[i].index
    {
      SeededBindsListed(s0.names, components, i);
    }
    obj := new RegistryObject();
    obj.Bind(reg);
  }

  /** `mrb_eval`: the value the code evaluated to, unless an exception is
      pending once it has run, in which case nil. */
  function Eval(evaluated: Value, excPending: bool): (r: Value)
    ensures excPending ==> r == Nil
    ensures !excPending ==> r == evaluated
  {
    if excPending then Nil else evaluated
  }

  /** The last loop of `mrb_registry_entities`: walks the view and yields
      every entity whose dynamic store holds all the dynamic ids (with no
      dynamic id, every entity of the view). */
  method YieldMatching(view: set<Entity>, dyn: DynPool, dynamic: seq<int>) returns (yielded: set<Entity>)
    ensures yielded == set e | e in view && HoldsAll(StoreOf(dyn, e), dynamic)
  {
    yielded := {};
    var rest := view;
    while rest != {}
      invariant rest <= view
      invariant yielded == set e | e in view - rest && HoldsAll(StoreOf(dyn, e), dynamic)
      decreases |rest|
    {
      var e :| e in rest;
      var others := StoreOf(dyn, e);
      if forall d :: d in dynamic ==> d in others {
        yielded := yielded + {e};
      }
      rest := rest - {e};
    }
  }

  // ---------------------------------------------------------------------
  // The script-level object

  /** The script-level `Registry` object: its data is a
      `WeakPointer<Derived>`, null until `mrb_init` sets it. */
  class RegistryObject {
    var target: Registry?

    /** `registry_class.new_(0, nullptr)`: the pointer starts out null. */
    constructor ()
      ensures target == null
    {
      target := null;
    }

    /** `registry_data->set(&derived())`. */
    method Bind(reg: Registry)
      modifies this
      ensures target == reg
    {
      target := reg;
    }

    ghost predicate Valid()
      reads this, target
    {
      target != null ==> Inv(target.Snapshot(), target.maxStatic, target.dynIndex)
    }

    /** The shared body of the four forwarders. */
    method Invoke(op: Op, args: seq<Value>) returns (r: Value)
      requires Valid()
      modifies target
      ensures Valid()
      ensures target == null ==> r == Nil
      ensures target != null ==>
        (r, target.Snapshot()) == Forward(old(target.Snapshot()), target.maxStatic, target.dynIndex, op, args)
    {
      var reg := target;
      if reg == null {
        return Nil;
      }
      ForwardKeepsInv(reg.Snapshot(), reg.maxStatic, reg.dynIndex, op, args);
      var u := Unpack(args, reg.funcMap, reg.maxStatic, reg.dynIndex);
      if u.None? {
        return Nil;
      }
      var fn := Select(u.value.fns, op);
      r := Call(reg, fn, u.value.entity, u.value.id, u.value.argv);
    }

    /** `has? entity, type` */
    method Has(args: seq<Value>) returns (r: Value)
      requires Valid()
      modifies target
      ensures Valid()
      ensures target == null ==> r == Nil
      ensures target != null ==>
        (r, target.Snapshot()) == Forward(old(target.Snapshot()), target.maxStatic, target.dynIndex, HasOp, args)
    {
      r := Invoke(HasOp, args);
    }

    /** `get entity, type` */
    method Get(args: seq<Value>) returns (r: Value)
      requires Valid()
      modifies target
      ensures Valid()
      ensures target == null ==> r == Nil
      ensures target != null ==>
        (r, target.Snapshot()) == Forward(old(target.Snapshot()), target.maxStatic, target.dynIndex, GetOp, args)
    {
      r := Invoke(GetOp, args);
    }

    /** `set entity, type, *args` */
    method Set(args: seq<Value>) returns (r: Value)
      requires Valid()
      modifies target
      ensures Valid()
      ensures target == null ==> r == Nil
      ensures target != null ==>
        (r, target.Snapshot()) == Forward(old(target.Snapshot()), target.maxStatic, target.dynIndex, SetOp, args)
    {
      r := Invoke(SetOp, args);
    }

    /** `remove entity, type` */
    method Remove(args: seq<Value>) returns (r: Value)
      requires Valid()
      modifies target
      ensures Valid()
      ensures target == null ==> r == Nil
      ensures target != null ==>
        (r, target.Snapshot()) == Forward(old(target.Snapshot()), target.maxStatic, target.dynIndex, RemoveOp, args)
    {
      r := Invoke(RemoveOp, args);
    }

    /** `valid? entity`: whether the engine handed out that entity; nil
        unless exactly one integer is given. */
    method IsValid(args: seq<Value>) returns (r: Value)
      ensures target == null ==> r == Nil
      ensures target != null && (|args| != 1 || !args[0].Int?) ==> r == Nil
      ensures target != null && |args| == 1 && args[0].Int? ==> r == Bool(ToU32(args[0].i) < target.created)
    {
      var reg := target;
      if reg == null {
        return Nil;
      }
      if |args| != 1 || !args[0].Int? {
        return Nil;
      }
      r := Bool(ToU32(args[0].i) < reg.created);
    }

    /** `create`: a new entity, answered as its integer id. */
    method Create() returns (r: Value)
      requires Valid()
      modifies target
      ensures Valid()
      ensures target == null ==> r == Nil
      ensures target != null ==>
        && r == Int(old(target.created))
        && target.Snapshot() == old(target.Snapshot()).(created := old(target.created) + 1)
    {
      var reg := target;
      if reg == null {
        return Nil;
      }
      r := Int(reg.created);
      reg.created := reg.created + 1;
    }

    /** `component name`: the id of a known name, or a fresh id from the
        counter, recorded for the name. Nil unless exactly one string is given. */
    method Component(args: seq<Value>) returns (r: Value)
      requires Valid()
      modifies target
      ensures Valid()
      ensures target == null ==> r == Nil
      ensures target != null && (|args| != 1 || !args[0].Str?) ==>
        r == Nil && target.Snapshot() == old(target.Snapshot())
      ensures target != null && |args| == 1 && args[0].Str? ==>
        var (id, nt) := ComponentNames.Component(NameTable(old(target.names), old(target.nextDynamicId)), args[0].s);
        && r == Int(id)
        && target.Snapshot() == old(target.Snapshot()).(names := nt.ids, nextDynamicId := nt.next)
    {
      var reg := target;
      if reg == null {
        return Nil;
      }
      if |args| != 1 || !args[0].Str? {
        return Nil;
      }
      var name := args[0].s;
      ComponentKeepsIssued(NameTable(reg.names, reg.nextDynamicId), name, reg.maxStatic);
      if name in reg.names {
        return Int(reg.names[name]);
      }
      var id := reg.nextDynamicId;
      reg.nextDynamicId := reg.nextDynamicId + 1;
      reg.names := reg.names[name := id];
      r := Int(id);
    }

    /** `all_components`: every known name once, as a string, in the name
        table's iteration order. */
    method AllComponents() returns (r: Value)
      ensures target == null ==> r == Nil
      ensures target != null ==>
        && r.Arr? && |r.elems| == |target.names|
        && (forall v :: v in r.elems <==> v.Str? && v.s in target.names)
        && (forall i, j :: 0 <= i < j < |r.elems| ==> r.elems[i] != r.elems[j])
    {
      var reg := target;
      if reg == null {
        return Nil;
      }
      var n := |reg.names|;
      var a := new Value[n];
      var rest := reg.names.Keys;
      for i := 0 to n
        invariant rest <= reg.names.Keys && |rest| == n - i
        invariant forall j :: 0 <= j < i ==> a[j].Str? && a[j].s in reg.names && a[j].s !in rest
        invariant forall m :: m in reg.names && m !in rest ==> Str(m) in a[..i]
        invariant forall j, l :: 0 <= j < l < i ==> a[j] != a[l]
      {
        var name :| name in rest;
        a[i] := Str(name);
        rest := rest - {name};
        assert a[..i + 1] == a[..i] + [Str(name)];
      }
      assert rest == {};
      r := Arr(a[..]);
    }

    /** `entities *types, &block`: with no argument or no block, nil and
        nothing yielded; otherwise yields every entity the query matches and
        answers the object itself. */
    method Entities(args: seq<Value>, hasBlock: bool, self: Value) returns (r: Value, yielded: set<Entity>)
      ensures target == null || args == [] || !hasBlock ==> r == Nil && yielded == {}
      ensures target != null && args != [] && hasBlock ==>
        r == self && yielded == Matches(target.pools, target.dyn, target.maxStatic, target.dynIndex, args)
    {
      var reg := target;
      if reg == null {
        return Nil, {};
      }
      if |args| == 0 {
        return Nil, {};
      }
      if !hasBlock {
        return Nil, {};
      }
      var components, dynamic := Partition(args, reg.maxStatic, reg.dynIndex);
      var filter := set t | t in components;
      assert filter == Filter(args, reg.maxStatic, reg.dynIndex) by {
        assert forall t :: t in components <==> t in multiset(components);
      }
      var view := View(reg.pools, reg.dyn, reg.dynIndex, filter);
      yielded := YieldMatching(view, reg.dyn, dynamic);
      r := self;
    }

    /** `args.map { |id| component_id id }` in `each_entity`: `component` on
        each name in turn. */
    method ResolveNames(names: seq<string>) returns (ids: seq<int>)
      requires Valid() && target != null
      modifies target
      ensures Valid()
      ensures ids == ComponentAll(NameTable(old(target.names), old(target.nextDynamicId)), names).0
      ensures var nt := ComponentAll(NameTable(old(target.names), old(target.nextDynamicId)), names).1;
        target.Snapshot() == old(target.Snapshot()).(names := nt.ids, nextDynamicId := nt.next)
    {
      var reg := target;
      ghost var table := NameTable(reg.names, reg.nextDynamicId);
      ghost var start := reg.Snapshot();
      ids := [];
      assert names[0..] == names;
      for i := 0 to |names|
        invariant Valid()
        invariant ids + ComponentAll(NameTable(reg.names, reg.nextDynamicId), names[i..]).0 == ComponentAll(table, names).0
        invariant ComponentAll(NameTable(reg.names, reg.nextDynamicId), names[i..]).1 == ComponentAll(table, names).1
        invariant reg.Snapshot() == start.(names := reg.names, nextDynamicId := reg.nextDynamicId)
      {
        ghost var before := NameTable(reg.names, reg.nextDynamicId);
        assert names[i..][0] == names[i] && names[i..][1..] == names[i + 1..];
        var id := Component([Str(names[i])]);
        ghost var after := NameTable(reg.names, reg.nextDynamicId);
        assert after == ComponentNames.Component(before, names[i]).1;
        ghost var more := ComponentAll(after, names[i + 1..]);
        assert ComponentAll(before, names[i..]) == ([id.i] + more.0, more.1);
        assert ids + ([id.i] + more.0) == (ids + [id.i]) + more.0;
        ids := ids + [id.i];
      }
      assert names[|names|..] == [];
    }

    /** `each_entity *names, &block` of the script prelude: resolves each name
        with `component`, then runs `entities` over the ids. */
    method EachEntity(names: seq<string>, hasBlock: bool, self: Value) returns (r: Value, yielded: set<Entity>)
      requires Valid()
      modifies target
      ensures Valid()
      ensures target == null ==> r == Nil && yielded == {}
      ensures target != null ==>
        var (ids, nt) := ComponentAll(NameTable(old(target.names), old(target.nextDynamicId)), names);
        && target.Snapshot() == old(target.Snapshot()).(names := nt.ids, nextDynamicId := nt.next)
        && (if names != [] && hasBlock
            then r == self && yielded == Matches(target.pools, target.dyn, target.maxStatic, target.dynIndex, IntValues(ids))
            else r == Nil && yielded == {})
    {
      var reg := target;
      if reg == null {
        return Nil, {};
      }
      var ids := ResolveNames(names);
      r, yielded := Entities(IntValues(ids), hasBlock, self);
    }
  }

  // ---------------------------------------------------------------------
  // A script run

  /** The query of the run below, with `max_static_components` at 32: with
      `Transform` (index 1) on entities 0 and 1 and a `Velocity` (the first
      dynamic id, 32) only in entity 1's store, asking for both finds entity 1
      alone. */
  lemma TransformVelocityQuery(v: Value)
    ensures Matches(map[0 := {1}, 1 := {1}], map[1 := map[32 := v]], 32, 0, IntValues([1, 32])) == {1}
  {
    var pools: Pools := map[0 := {1}, 1 := {1}];
    var dyn: DynPool := map[1 := map[32 := v]];
    forall e: Entity
      ensures e in Matches(pools, dyn, 32, 0, IntValues([1, 32])) <==> e == 1
    {
      MatchesIffEachPresent(pools, dyn, 32, 0, [1, 32], e);
      assert Present(pools, dyn, 32, e, 32) <==> e == 1;
    }
  }

  /** The names of the run below. `mrb_init` seeds `Transform` with its
      type index 1 and the counter starts at 32; `component "Transform"`
      then finds that index, and the unknown `Velocity` gets the first
      dynamic id, 32. */
  lemma TransformVelocityIds()
    ensures var seeded := NameTable(Seeded(map[], [StaticComponent("Transform", 1)]), 32);
      ComponentAll(seeded, ["Transform", "Velocity"]).0 == [1, 32]
  {
    var seeded := NameTable(Seeded(map[], [StaticComponent("Transform", 1)]), 32);
    SeededBindsListed(map[], [StaticComponent("Transform", 1)], 0);
    assert "Velocity" != "Transform";
    var (id1, nt1) := Component(seeded, "Transform");
    assert id1 == 1;
    assert "Velocity" !in nt1.ids;
    assert ["Transform", "Velocity"][1..] == ["Velocity"];
    assert ComponentAll(nt1, ["Velocity"]).0 == [32];
  }

  /** The function table `mrb_init` builds for `Transform` (index 1) with
      `DynamicComponents` at index 0. */
  function TransformTable(): ComponentFunctionMap
  {
    map[0 := EntryFor(DynamicInterface), 1 := EntryFor(DefaultInterface(1))]
  }

  /** The test driver's run. Entity 0 is given `Transform` from C++; the script
      creates entity 1 and does `set 1, Transform, t` and `set 1, Velocity, v`,
      with the ids `TransformVelocityIds` shows the two names resolve to.
      Afterwards the query over both finds entity 1 alone, and
      `get 1, Velocity` reads back the value the second `set` stored. */
  lemma TransformVelocityRun(s: State, t: Value, v: Value)
    requires s.funcMap == TransformTable() && s.pools == map[0 := {1}] && s.dyn == map[]
    ensures var s1 := Forward(s, 32, 0, SetOp, [Int(1), Int(1), t]).1;
      var s2 := Forward(s1, 32, 0, SetOp, [Int(1), Int(32), v]).1;
      && Matches(s2.pools, s2.dyn, 32, 0, IntValues([1, 32])) == {1}
      && Forward(s2, 32, 0, GetOp, [Int(1), Int(32)]).0 == v
  {
    var args1 := [Int(1), Int(1), t];
    assert ToU32(1) == 1 && ToU32(32) == 32;
    assert args1[2..] == [t];
    assert 1 in TransformTable() && TransformTable()[1] == EntryFor(DefaultInterface(1));
    assert LookupKey(1, 32, 0) == 1;
    assert Unpack(args1, s.funcMap, 32, 0) == Some(Unpacked(1, 1, [t], EntryFor(DefaultInterface(1))));
    var s1 := Forward(s, 32, 0, SetOp, args1).1;
    assert s1 == s.(pools := Defaults.Emplaced(map[0 := {1}], 1, 1));
    assert ComponentsOf(map[0 := {1}], 1) == {};
    assert ComponentsOf(map[0 := {1}], 1) + {1} == {1};
    assert Defaults.Emplaced(map[0 := {1}], 1, 1) == map[0 := {1}, 1 := {1}];
    assert s1 == s.(pools := map[0 := {1}, 1 := {1}]);
    var args2 := [Int(1), Int(32), v];
    assert args2[2..] == [v];
    assert LookupKey(32, 32, 0) == 0;
    var s2 := Forward(s1, 32, 0, SetOp, args2).1;
    assert s2.pools == map[0 := {1}, 1 := {1}] && s2.dyn == map[1 := map[32 := v]];
    TransformVelocityQuery(v);
  }
}
