/**
 Message types and message values.  A message class declared through `PROTO_FIELDS` is a list of
 typed fields; a field is a plain C++ object (copied as raw memory), a `std::string`, a
 `std::vector` or another message class.
 */
module Schema {
  import opened Bytes

  /** `slot` is `sizeof(T)` of a vector's element type, which has no relation to its encoded size. */
  datatype Schema =
    | Pod(size: nat)
    | Str
    | Vec(elem: Schema, slot: nat)
    | Msg(fields: seq<Schema>)

  datatype Value =
    | PodV(image: Bytes)
    | StrV(text: Bytes)
    | VecV(items: seq<Value>)
    | MsgV(members: seq<Value>)

  /** The element type of a vector, once for each of its `n` elements. */
  function Rep(elem: Schema, n: nat): (ss: seq<Schema>)
    ensures |ss| == n
    ensures forall i :: 0 <= i < n ==> ss[i] == elem
  {
    seq(n, _ => elem)
  }

  lemma RepTail(elem: Schema, n: nat)
    requires n > 0
    ensures Rep(elem, n)[1..] == Rep(elem, n - 1)
  {
  }

  /** C++ objects are at least one byte long, and a message class declares at least one field. */
  predicate WellFormed(s: Schema) {
    match s
    case Pod(size) => size > 0
    case Str => true
    case Vec(elem, slot) => slot > 0 && WellFormed(elem)
    case Msg(fields) => |fields| > 0 && WellFormedAll(fields)
  }

  predicate WellFormedAll(ss: seq<Schema>) {
    ss == [] || (WellFormed(ss[0]) && WellFormedAll(ss[1..]))
  }

  predicate Conforms(s: Schema, v: Value)
    decreases v, 1
  {
    match s
    case Pod(size) => v.PodV? && |v.image| == size
    case Str => v.StrV?
    case Vec(elem, _) => v.VecV? && ConformsAll(Rep(elem, |v.items|), v.items)
    case Msg(fields) => v.MsgV? && ConformsAll(fields, v.members)
  }

  predicate ConformsAll(ss: seq<Schema>, vs: seq<Value>)
    decreases vs, 0
  {
    && |ss| == |vs|
    && (ss == [] || (Conforms(ss[0], vs[0]) && ConformsAll(ss[1..], vs[1..])))
  }

  /** Every string and vector is short enough for its `int32_t` length prefix. */
  predicate Fits(v: Value)
    decreases v, 1
  {
    match v
    case PodV(_) => true
    case StrV(text) => |text| < INT32_LIMIT
    case VecV(items) => |items| < INT32_LIMIT && FitsAll(items)
    case MsgV(members) => FitsAll(members)
  }

  predicate FitsAll(vs: seq<Value>)
    decreases vs, 0
  {
    vs == [] || (Fits(vs[0]) && FitsAll(vs[1..]))
  }

  /** The size of the largest plain object copied for the type, length prefixes included. */
  function PodMax(s: Schema): nat {
    match s
    case Pod(size) => size
    case Str => 4
    case Vec(elem, _) => Max(4, PodMax(elem))
    case Msg(fields) => PodMaxAll(fields)
  }

  function PodMaxAll(ss: seq<Schema>): nat {
    if ss == [] then 0 else Max(PodMax(ss[0]), PodMaxAll(ss[1..]))
  }

  /** The largest `sizeof` of a vector element in the type. */
  function SlotMax(s: Schema): nat {
    match s
    case Pod(_) => 0
    case Str => 0
    case Vec(elem, slot) => Max(slot, SlotMax(elem))
    case Msg(fields) => SlotMaxAll(fields)
  }

  function SlotMaxAll(ss: seq<Schema>): nat {
    if ss == [] then 0 else Max(SlotMax(ss[0]), SlotMaxAll(ss[1..]))
  }

  /** Nesting depth, the measure of recursion that follows a type rather than a value. */
  function Depth(s: Schema): nat {
    match s
    case Pod(_) => 0
    case Str => 0
    case Vec(elem, _) => 1 + Depth(elem)
    case Msg(fields) => 1 + DepthAll(fields)
  }

  function DepthAll(ss: seq<Schema>): nat {
    if ss == [] then 0 else Max(Depth(ss[0]), DepthAll(ss[1..]))
  }

  /** What a type's measures are on the element list of a vector. */
  lemma {:induction false} RepMeasures(elem: Schema, n: nat)
    ensures DepthAll(Rep(elem, n)) <= Depth(elem)
    ensures PodMaxAll(Rep(elem, n)) <= PodMax(elem)
    ensures SlotMaxAll(Rep(elem, n)) <= SlotMax(elem)
    ensures WellFormed(elem) ==> WellFormedAll(Rep(elem, n))
  {
    if n == 0 {
    } else {
      RepTail(elem, n);
      RepMeasures(elem, n - 1);
    }
  }

  /** A freshly constructed object: value-initialised memory, empty strings and vectors. */
  function Default(s: Schema): (v: Value)
    ensures Conforms(s, v)
  {
    match s
    case Pod(size) => PodV(seq(size, _ => 0))
    case Str => StrV([])
    case Vec(elem, _) => VecV([])
    case Msg(fields) => MsgV(DefaultAll(fields))
  }

  function DefaultAll(ss: seq<Schema>): (vs: seq<Value>)
    ensures ConformsAll(ss, vs)
  {
    if ss == [] then [] else [Default(ss[0])] + DefaultAll(ss[1..])
  }
}
