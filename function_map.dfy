/** The per-component operation table: the `ComponentFunctionSet` record,
    the `ComponentFunctionMap` keyed by engine type index, and
    `mrb_init_function_map`, which installs one record per listed component. */
module FunctionMap {

  /** The four operations of a component interface. */
  datatype Op = HasOp | GetOp | RemoveOp | SetOp

  /** The `ComponentInterface<T>` an operation comes from: the defaults for the
      component whose type index is `component`, or the specialisation for
      `DynamicComponents`. */
  datatype Interface = DefaultInterface(component: int) | DynamicInterface

  /** A function pointer `ComponentInterface<T>::op`. */
  datatype Fn = Fn(iface: Interface, op: Op)

  /** `ComponentFunctionSet`, fields in declaration order; `assign` is the
      record's `set` field (`set` is a keyword in Dafny). */
  datatype FunctionSet = FunctionSet(has: Fn, get: Fn, remove: Fn, assign: Fn)

  type ComponentFunctionMap = map<int, FunctionSet>

  /** `ComponentInterface<T>` for the type with index `t`: `DynamicComponents`
      (index `dynIndex`) has its own specialisation; every other component
      inherits `DefaultComponentInterface<T>` unchanged. */
  function InterfaceOf(t: int, dynIndex: int): (i: Interface)
    ensures i.DynamicInterface? <==> t == dynIndex
    ensures i.DefaultInterface? ==> i.component == t
  {
    if t == dynIndex then DynamicInterface else DefaultInterface(t)
  }

  /** The record `{has, get, remove, set}` built from one interface: every
      field points into that interface, and each field holds the operation
      it is named after. */
  function EntryFor(i: Interface): (fs: FunctionSet)
    ensures fs.has.iface == i && fs.get.iface == i && fs.remove.iface == i && fs.assign.iface == i
    ensures fs.has.op == HasOp && fs.get.op == GetOp && fs.remove.op == RemoveOp && fs.assign.op == SetOp
  {
    FunctionSet(Fn(i, HasOp), Fn(i, GetOp), Fn(i, RemoveOp), Fn(i, SetOp))
  }

  /** Every entry is the record of the interface its key selects. */
  ghost predicate WellFormed(m: ComponentFunctionMap, dynIndex: int)
  {
    forall k :: k in m ==> m[k] == EntryFor(InterfaceOf(k, dynIndex))
  }

  /** The table after assigning one entry per listed type index, left to right. */
  function Installed(m: ComponentFunctionMap, types: seq<int>, dynIndex: int): (r: ComponentFunctionMap)
    ensures m.Keys <= r.Keys
    ensures forall t :: t in types ==> t in r
    decreases |types|
  {
    if types == [] then m
    else Installed(m[types[0] := EntryFor(InterfaceOf(types[0], dynIndex))], types[1..], dynIndex)
  }

  /** Installation adds exactly the listed keys, each bound to its interface's
      record, leaves every other entry alone and keeps the table well formed. */
  lemma {:induction false} InstalledEntries(m: ComponentFunctionMap, types: seq<int>, dynIndex: int)
    ensures Installed(m, types, dynIndex).Keys == m.Keys + set t | t in types
    ensures forall t :: t in types ==> Installed(m, types, dynIndex)[t] == EntryFor(InterfaceOf(t, dynIndex))
    ensures forall k :: k in m && k !in types ==> Installed(m, types, dynIndex)[k] == m[k]
    ensures WellFormed(m, dynIndex) ==> WellFormed(Installed(m, types, dynIndex), dynIndex)
    decreases |types|
  {
    if types != [] {
      var m' := m[types[0] := EntryFor(InterfaceOf(types[0], dynIndex))];
      InstalledEntries(m', types[1..], dynIndex);
      assert forall t :: t in types <==> t == types[0] || t in types[1..];
    }
  }

  /** `mrb_init_function_map`: writes `map[type_index] = {has, get, remove, set}`
      for each listed component in turn. */
  method InitFunctionMap(m: ComponentFunctionMap, types: seq<int>, dynIndex: int) returns (r: ComponentFunctionMap)
    ensures r == Installed(m, types, dynIndex)
    ensures r.Keys == m.Keys + set t | t in types
    ensures forall t :: t in types ==> r[t] == EntryFor(InterfaceOf(t, dynIndex))
    ensures forall k :: k in m && k !in types ==> r[k] == m[k]
  {
    r := m;
    for i := 0 to |types|
      invariant Installed(r, types[i..], dynIndex) == Installed(m, types, dynIndex)
    {
      assert types[i..][1..] == types[i + 1..];
      r := r[types[i] := EntryFor(InterfaceOf(types[i], dynIndex))];
    }
    InstalledEntries(m, types, dynIndex);
  }
}
