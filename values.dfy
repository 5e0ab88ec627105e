/** Script values as the dispatch layer sees them, and the fixed-width
    conversions the C++ code applies to script integers. */
module MrbValues {

  /** `entt::entity` and `entt::id_type` are 32-bit unsigned integers. */
  const U32Range: int := 0x1_0000_0000

  /** An entity identifier of the storage engine. */
  type Entity = nat

  /** An `mrb_value`: the immediates the layer tells apart (nil, booleans,
      fixnums), strings (component names), arrays, and any other heap object,
      known only by its identity. */
  datatype Value =
    | Nil
    | Bool(b: bool)
    | Int(i: int)
    | Str(s: string)
    | Arr(elems: seq<Value>)
    | Object(id: nat)

  datatype Option<T> = None | Some(value: T)

  /** Heap objects are what the garbage collector tracks; nil, booleans and
      fixnums are immediates. */
  predicate IsObject(v: Value)
  {
    v.Str? || v.Arr? || v.Object?
  }

  /** An `mrb_int` converted to a 32-bit unsigned engine integer: the cast
      `(entt::entity)x`, or `x` passed where an `entt::id_type` is expected.
      Two's-complement truncation is reduction modulo 2^32. */
  function ToU32(x: int): (r: nat)
    ensures r < U32Range
    ensures 0 <= x < U32Range ==> r == x
    ensures exists q :: x == q * U32Range + r
  {
    var r := x % U32Range;
    assert x == (x / U32Range) * U32Range + r;
    r
  }

  /** How `DynamicComponents::set` turns its argument list into the one value
      it stores: no argument stores nil, one argument stores that argument,
      several are collected into a new array in call order. */
  function PackArgs(args: seq<Value>): (r: Value)
    ensures |args| == 0 ==> r == Nil
    ensures |args| == 1 ==> r == args[0]
    ensures |args| >= 2 ==> r.Arr? && r.elems == args
  {
    if |args| == 0 then Nil
    else if |args| == 1 then args[0]
    else Arr(args)
  }

  /** The argument list a stored value came from, given the call's arity. */
  function UnpackArgs(v: Value, argc: nat): seq<Value>
  {
    if argc == 0 then []
    else if argc == 1 then [v]
    else if v.Arr? then v.elems
    else [v]
  }

  /** Packing loses nothing once the arity is known. */
  lemma PackArgsRoundTrip(args: seq<Value>)
    ensures UnpackArgs(PackArgs(args), |args|) == args
  {
    if |args| == 1 {
      assert args == [args[0]];
    }
  }
}
