/** What an object that is read into becomes: strings are appended to, everything else is replaced. */
module Absorbing {
  import opened Bytes
  import opened Schema
  import opened ProtoReader

  /** What `target` becomes when the encoding of `v` is read into it: strings are appended to. */
  function Absorb(s: Schema, target: Value, v: Value): (r: Value)
    requires Conforms(s, target) && Conforms(s, v)
    decreases v, 1
  {
    match s
    case Pod(_) => v
    case Str => StrV(target.text + v.text)
    case Vec(elem, _) =>
      var n := |v.items|;
      VecV(AbsorbAll(Rep(elem, n), Resize(elem, target.items, n), v.items))
    case Msg(fields) => MsgV(AbsorbAll(fields, target.members, v.members))
  }

  function AbsorbAll(ss: seq<Schema>, targets: seq<Value>, vs: seq<Value>): (r: seq<Value>)
    requires ConformsAll(ss, targets) && ConformsAll(ss, vs)
    ensures |r| == |vs|
    decreases vs, 0
  {
    if vs == [] then [] else
    [Absorb(ss[0], targets[0], vs[0])] + AbsorbAll(ss[1..], targets[1..], vs[1..])
  }

  /** Every string of `target` that reading `v` would append to is empty. */
  predicate Blank(s: Schema, target: Value, v: Value)
    requires Conforms(s, target) && Conforms(s, v)
    decreases v, 1
  {
    match s
    case Pod(_) => true
    case Str => target.text == []
    case Vec(elem, _) =>
      var n := |v.items|;
      BlankAll(Rep(elem, n), Resize(elem, target.items, n), v.items)
    case Msg(fields) => BlankAll(fields, target.members, v.members)
  }

  predicate BlankAll(ss: seq<Schema>, targets: seq<Value>, vs: seq<Value>)
    requires ConformsAll(ss, targets) && ConformsAll(ss, vs)
    decreases vs, 0
  {
    vs == [] || (Blank(ss[0], targets[0], vs[0]) && BlankAll(ss[1..], targets[1..], vs[1..]))
  }

  /** Reading into an object gives the value itself exactly when the object was blank. */
  lemma {:induction false} AbsorbsExactlyIntoBlank(s: Schema, target: Value, v: Value)
    requires Conforms(s, target) && Conforms(s, v)
    ensures Absorb(s, target, v) == v <==> Blank(s, target, v)
    decreases v, 1
  {
    match s {
      case Pod(_) =>
      case Str =>
        assert |target.text + v.text| == |target.text| + |v.text|;
      case Vec(elem, _) =>
        var n := |v.items|;
        AbsorbsAllExactlyIntoBlank(Rep(elem, n), Resize(elem, target.items, n), v.items);
      case Msg(fields) =>
        AbsorbsAllExactlyIntoBlank(fields, target.members, v.members);
    }
  }

  lemma {:induction false} AbsorbsAllExactlyIntoBlank(ss: seq<Schema>, targets: seq<Value>, vs: seq<Value>)
    requires ConformsAll(ss, targets) && ConformsAll(ss, vs)
    ensures AbsorbAll(ss, targets, vs) == vs <==> BlankAll(ss, targets, vs)
    decreases vs, 0
  {
    if vs == [] {
    } else {
      AbsorbsExactlyIntoBlank(ss[0], targets[0], vs[0]);
      AbsorbsAllExactlyIntoBlank(ss[1..], targets[1..], vs[1..]);
      var a := AbsorbAll(ss, targets, vs);
      assert a[0] == Absorb(ss[0], targets[0], vs[0]) && a[1..] == AbsorbAll(ss[1..], targets[1..], vs[1..]);
      assert vs == [vs[0]] + vs[1..];
    }
  }

  /** A fresh object is blank for every value. */
  lemma {:induction false} DefaultIsBlank(s: Schema, v: Value)
    requires Conforms(s, v)
    ensures Blank(s, Default(s), v)
    decreases v, 1
  {
    match s {
      case Pod(_) =>
      case Str =>
      case Vec(elem, _) => FreshElementsAreBlank(elem, v.items);
      case Msg(fields) => DefaultsAreBlank(fields, v.members);
    }
  }

  lemma {:induction false} FreshElementsAreBlank(elem: Schema, vs: seq<Value>)
    requires ConformsAll(Rep(elem, |vs|), vs)
    ensures BlankAll(Rep(elem, |vs|), Resize(elem, [], |vs|), vs)
    decreases vs, 0
  {
    if vs == [] {
    } else {
      RepTail(elem, |vs|);
      DefaultIsBlank(elem, vs[0]);
      FreshElementsAreBlank(elem, vs[1..]);
      assert Resize(elem, [], |vs|)[1..] == Resize(elem, [], |vs| - 1);
    }
  }

  lemma {:induction false} DefaultsAreBlank(ss: seq<Schema>, vs: seq<Value>)
    requires ConformsAll(ss, vs)
    ensures BlankAll(ss, DefaultAll(ss), vs)
    decreases vs, 0
  {
    if vs == [] {
    } else {
      DefaultIsBlank(ss[0], vs[0]);
      DefaultsAreBlank(ss[1..], vs[1..]);
      assert DefaultAll(ss)[1..] == DefaultAll(ss[1..]);
    }
  }

  /** What is read into: plain objects are replaced, text goes behind the text there was, elements go by place. */
  lemma AbsorbsByParts(elem: Schema, slot: nat, a: Bytes, b: Bytes, target: seq<Value>, items: seq<Value>)
    requires ConformsAll(Rep(elem, |target|), target) && ConformsAll(Rep(elem, |items|), items) && |a| == |b|
    ensures Absorb(Pod(|a|), PodV(a), PodV(b)) == PodV(b)
    ensures Absorb(Str, StrV(a), StrV(b)) == StrV(a + b)
    ensures var s, n := Vec(elem, slot), |items|;
      Absorb(s, VecV(target), VecV(items)) == VecV(AbsorbAll(Rep(elem, n), Resize(elem, target, n), items))
  {
  }

  lemma {:induction false} AbsorbsAllByPlace(ss: seq<Schema>, targets: seq<Value>, vs: seq<Value>, i: nat)
    requires ConformsAll(ss, targets) && ConformsAll(ss, vs) && i < |ss|
    ensures |AbsorbAll(ss, targets, vs)| == |ss| && Conforms(ss[i], targets[i]) && Conforms(ss[i], vs[i])
    ensures AbsorbAll(ss, targets, vs)[i] == Absorb(ss[i], targets[i], vs[i])
    decreases i
  {
    if i == 0 {
    } else {
      AbsorbsAllByPlace(ss[1..], targets[1..], vs[1..], i - 1);
    }
  }
}
