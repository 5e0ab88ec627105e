/** The query behind `Registry#entities`: split the requested ids into static
    ones, which go to the engine's structural filter, and dynamic ones, which
    are checked against each candidate's `DynamicComponents` store. */
module Query {
  import opened MrbValues
  import opened Engine

  /** The static ids among the arguments, as the 32-bit type indices pushed
      into the filter, in argument order; anything but an integer is skipped. */
  function StaticIds(args: seq<Value>, maxStatic: int): seq<int>
    decreases |args|
  {
    if args == [] then []
    else
      var last := args[|args| - 1];
      StaticIds(args[..|args| - 1], maxStatic)
        + (if last.Int? && last.i < maxStatic then [ToU32(last.i)] else [])
  }

  /** The dynamic ids among the arguments (those from `max_static_components`
      on), as 32-bit keys, in argument order. */
  function DynamicIds(args: seq<Value>, maxStatic: int): seq<int>
    decreases |args|
  {
    if args == [] then []
    else
      var last := args[|args| - 1];
      DynamicIds(args[..|args| - 1], maxStatic)
        + (if last.Int? && last.i >= maxStatic then [ToU32(last.i)] else [])
  }

  /** Each integer argument lands on exactly one side of the split, and
      nothing else does. */
  lemma {:induction false} SplitCoversIntegers(args: seq<Value>, maxStatic: int)
    ensures forall i :: 0 <= i < |args| && args[i].Int? && args[i].i < maxStatic ==> ToU32(args[i].i) in StaticIds(args, maxStatic)
    ensures forall i :: 0 <= i < |args| && args[i].Int? && args[i].i >= maxStatic ==> ToU32(args[i].i) in DynamicIds(args, maxStatic)
    ensures forall x :: x in StaticIds(args, maxStatic) ==>
      exists i :: 0 <= i < |args| && args[i].Int? && args[i].i < maxStatic && ToU32(args[i].i) == x
    ensures forall x :: x in DynamicIds(args, maxStatic) ==>
      exists i :: 0 <= i < |args| && args[i].Int? && args[i].i >= maxStatic && ToU32(args[i].i) == x
    decreases |args|
  {
    if args != [] {
      var front := args[..|args| - 1];
      SplitCoversIntegers(front, maxStatic);
      assert forall i :: 0 <= i < |front| ==> front[i] == args[i];
    }
  }

  /** The component types the structural filter requires: the static ids, and
      `DynamicComponents` once if any dynamic id was given. */
  function Filter(args: seq<Value>, maxStatic: int, dynIndex: int): set<int>
  {
    (set t | t in StaticIds(args, maxStatic))
      + (if DynamicIds(args, maxStatic) != [] then {dynIndex} else {})
  }

  /** The loop of `mrb_registry_entities` that builds the `components` and
      `dynamic` vectors: `components` holds the static ids plus exactly one
      `DynamicComponents` index, pushed when the first dynamic id is seen. */
  method Partition(args: seq<Value>, maxStatic: int, dynIndex: int) returns (components: seq<int>, dynamic: seq<int>)
    ensures dynamic == DynamicIds(args, maxStatic)
    ensures multiset(components) ==
      multiset(StaticIds(args, maxStatic)) + (if dynamic == [] then multiset{} else multiset{dynIndex})
  {
    components, dynamic := [], [];
    for i := 0 to |args|
      invariant dynamic == DynamicIds(args[..i], maxStatic)
      invariant multiset(components) ==
        multiset(StaticIds(args[..i], maxStatic)) + (if dynamic == [] then multiset{} else multiset{dynIndex})
    {
      assert args[..i + 1][..i] == args[..i];
      var arg := args[i];
      if arg.Int? {
        var id := arg.i;
        if id < maxStatic {
          components := components + [ToU32(id)];
        } else {
          if dynamic == [] {
            components := components + [dynIndex];
          }
          dynamic := dynamic + [ToU32(id)];
        }
      }
    }
    assert args[..|args|] == args;
  }

  /** Whether a dynamic store holds every one of the given ids. */
  predicate HoldsAll(store: map<int, Value>, ids: seq<int>)
  {
    forall d :: d in ids ==> d in store
  }

  /** The entities `entities` yields: those in the structural view whose
      dynamic store holds every dynamic id asked for. */
  function Matches(pools: Pools, dyn: DynPool, maxStatic: int, dynIndex: int, args: seq<Value>): (r: set<Entity>)
    ensures StaticIds(args, maxStatic) == [] && DynamicIds(args, maxStatic) == [] ==> r == {}
    ensures forall e :: e in r ==> e in pools || e in dyn
  {
    set e | e in View(pools, dyn, dynIndex, Filter(args, maxStatic, dynIndex))
      && HoldsAll(StoreOf(dyn, e), DynamicIds(args, maxStatic))
  }

  /** An entity matches exactly when at least one integer id was asked for,
      it carries every static component asked for, it has a dynamic store if
      any dynamic id was asked for, and that store holds every dynamic id. */
  lemma MatchesExactly(pools: Pools, dyn: DynPool, maxStatic: int, dynIndex: int, args: seq<Value>, e: Entity)
    ensures e in Matches(pools, dyn, maxStatic, dynIndex, args) <==>
      && (StaticIds(args, maxStatic) != [] || DynamicIds(args, maxStatic) != [])
      && (forall t :: t in StaticIds(args, maxStatic) ==> HasType(pools, dyn, dynIndex, e, t))
      && (DynamicIds(args, maxStatic) != [] ==> e in dyn)
      && (forall d :: d in DynamicIds(args, maxStatic) ==> d in StoreOf(dyn, e))
  {
    var st, dy := StaticIds(args, maxStatic), DynamicIds(args, maxStatic);
    var filter := Filter(args, maxStatic, dynIndex);
    if st != [] {
      assert st[0] in filter;
    }
    if dy != [] {
      assert dynIndex in filter;
    }
  }
}
