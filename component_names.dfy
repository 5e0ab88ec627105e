/** The name registry behind `Registry#component`: every known component
    name with its id. Static names are seeded once at initialisation with the
    engine's type index; an unseen name gets the next id of a counter that
    starts at `max_static_components` and only ever grows. */
module ComponentNames {

  /** `mrb_dynamic_components` together with `next_dynamic_component_id`. */
  datatype NameTable = NameTable(ids: map<string, int>, next: int)

  /** What holds of the table at every point of a run: every id handed out
      so far is below the counter, the counter has not gone below its start,
      and no two names share an id. */
  ghost predicate Issued(nt: NameTable, maxStatic: int)
  {
    && maxStatic <= nt.next
    && (forall n :: n in nt.ids ==> nt.ids[n] < nt.next)
    && (forall n1, n2 :: n1 in nt.ids && n2 in nt.ids && nt.ids[n1] == nt.ids[n2] ==> n1 == n2)
  }

  /** `mrb_registry_new_component`: the id of a known name, with the table
      untouched; otherwise the counter's value, recorded for the name, with
      the counter advanced by one. */
  function Component(nt: NameTable, name: string): (res: (int, NameTable))
    ensures name in res.1.ids && res.1.ids[name] == res.0
    ensures res.1.ids.Keys == nt.ids.Keys + {name}
    ensures forall n :: n in nt.ids ==> res.1.ids[n] == nt.ids[n]
    ensures name in nt.ids ==> res.1 == nt
    ensures name !in nt.ids ==> res.0 == nt.next && res.1.next == nt.next + 1
  {
    if name in nt.ids then (nt.ids[name], nt)
    else (nt.next, NameTable(nt.ids[name := nt.next], nt.next + 1))
  }

  /** A fresh id is at least `max_static_components`, larger than every id
      issued before, and the table stays consistent. */
  lemma ComponentKeepsIssued(nt: NameTable, name: string, maxStatic: int)
    requires Issued(nt, maxStatic)
    ensures Issued(Component(nt, name).1, maxStatic)
    ensures name !in nt.ids ==>
      && maxStatic <= Component(nt, name).0
      && forall n :: n in nt.ids ==> nt.ids[n] < Component(nt, name).0
  {
  }

  /** `component` called on each name in turn. */
  function ComponentAll(nt: NameTable, names: seq<string>): (res: (seq<int>, NameTable))
    ensures |res.0| == |names|
    decreases |names|
  {
    if names == [] then ([], nt)
    else
      var (id, nt1) := Component(nt, names[0]);
      var (ids, nt2) := ComponentAll(nt1, names[1..]);
      ([id] + ids, nt2)
  }

  /** After any run of `component` calls, every name asked for is bound to the
      id it was given, earlier bindings are untouched, the counter never went
      back, and the table is still consistent. */
  lemma {:induction false} ComponentAllBinds(nt: NameTable, names: seq<string>, maxStatic: int)
    requires Issued(nt, maxStatic)
    ensures var (ids, nt') := ComponentAll(nt, names);
      && Issued(nt', maxStatic)
      && nt.next <= nt'.next
      && (forall n :: n in nt.ids ==> n in nt'.ids && nt'.ids[n] == nt.ids[n])
      && (forall i :: 0 <= i < |names| ==> names[i] in nt'.ids && nt'.ids[names[i]] == ids[i])
    decreases |names|
  {
    if names != [] {
      var (id, nt1) := Component(nt, names[0]);
      ComponentKeepsIssued(nt, names[0], maxStatic);
      ComponentAllBinds(nt1, names[1..], maxStatic);
      var (ids, nt2) := ComponentAll(nt1, names[1..]);
      assert ComponentAll(nt, names) == ([id] + ids, nt2);
      forall i | 0 <= i < |names|
        ensures names[i] in nt2.ids && nt2.ids[names[i]] == ([id] + ids)[i]
      {
        if i > 0 {
          assert names[i] == names[1..][i - 1];
        }
      }
    }
  }

  /** Repeated calls with one name give one id, and different names never
      share an id. */
  lemma ComponentIdsDistinct(nt: NameTable, names: seq<string>, maxStatic: int, i: nat, j: nat)
    requires Issued(nt, maxStatic)
    requires i < |names| && j < |names|
    ensures ComponentAll(nt, names).0[i] == ComponentAll(nt, names).0[j] <==> names[i] == names[j]
  {
    ComponentAllBinds(nt, names, maxStatic);
  }

}
