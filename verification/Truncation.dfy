/** What becomes of a reader that is given only the first of the chunks it would need. */
module Truncation {
  import opened Bytes
  import opened Schema
  import opened ProtoWriter
  import opened ProtoReader
  import opened RoundTrip

  /** The same position with fewer chunks to come. */
  function On(r: RState, ds: seq<Bytes>): RState {
    RState(ds, r.at, r.offset)
  }

  predicate Cut(r: RState, ds: seq<Bytes>) {
    r.InBounds() && r.at < |ds| <= |r.chunks| && ds == r.chunks[..|ds|]
  }

  lemma PodOnCut(r: RState, ds: seq<Bytes>, n: nat)
    requires Cut(r, ds) && TakePod(r, n).Some?
    ensures var (b, q) := TakePod(r, n).value;
      if q.at < |ds| then TakePod(On(r, ds), n) == Some((b, On(q, ds))) else StarvesPod(On(r, ds), n)
  {
  }

  lemma LengthOnCut(r: RState, ds: seq<Bytes>)
    requires Cut(r, ds) && TakeLength(r).Some?
    ensures var (n, q) := TakeLength(r).value;
      if q.at < |ds| then TakeLength(On(r, ds)) == Some((n, On(q, ds))) else StarvesPod(On(r, ds), 4)
  {
    PodOnCut(r, ds, 4);
  }

  lemma {:induction false} TextOnCut(r: RState, ds: seq<Bytes>, n: nat)
    requires Cut(r, ds) && TakeText(r, n).Some?
    ensures var (text, q) := TakeText(r, n).value;
      TakeText(On(r, ds), n) == if q.at < |ds| then Some((text, On(q, ds))) else None
    decreases |r.chunks| - r.at, n
  {
    hide TakeText, RState.Peek;
    if n == 0 {
      TakeNothing(r);
      TakeNothing(On(r, ds));
    } else {
      TextUnfolded(r, n);
      TextUnfolded(On(r, ds), n);
      var p := Refill(r).value;
      RefillOnCut(r, ds);
      if p.at < |ds| {
        var k := Min(n, p.Readable());
        PartOnCut(p, ds, k);
        TextOnCut(p.Skip(k), ds, n - k);
      }
    }
  }

  lemma RefillOnCut(r: RState, ds: seq<Bytes>)
    requires Cut(r, ds) && Refill(r).Some?
    ensures var p := Refill(r).value;
      if p.at < |ds| then Cut(p, ds) && Refill(On(r, ds)) == Some(On(p, ds)) else Refill(On(r, ds)) == None
  {
  }

  lemma PartOnCut(p: RState, ds: seq<Bytes>, k: nat)
    requires Cut(p, ds) && k <= p.Readable()
    ensures On(p, ds).InBounds() && On(p, ds).Readable() == p.Readable()
    ensures On(p, ds).Peek(k) == p.Peek(k) && On(p, ds).Skip(k) == On(p.Skip(k), ds)
  {
  }

  /** The cut reader gets as far as the other one does, or is left waiting in a pull; it never faults. */
  lemma {:induction false} ValueOnCut(r: RState, ds: seq<Bytes>, s: Schema, target: Value)
    requires Cut(r, ds) && Conforms(s, target) && TakeValue(r, s, target).Some?
    ensures var (v, q) := TakeValue(r, s, target).value;
      if q.at < |ds| then TakeValue(On(r, ds), s, target) == Some((v, On(q, ds))) else Starves(On(r, ds), s, target)
    decreases Depth(s), 0, 0
  {
    match s {
      case Pod(size) =>
        PodOnCut(r, ds, size);
      case Str =>
        LengthOnCut(r, ds);
        var (n, p) := TakeLength(r).value;
        if p.at < |ds| {
          TextOnCut(p, ds, n);
        }
      case Vec(elem, _) =>
        LengthOnCut(r, ds);
        var (n, p) := TakeLength(r).value;
        RepMeasures(elem, n);
        if p.at < |ds| {
          AllOnCut(p, ds, Rep(elem, n), Resize(elem, target.items, n));
        }
      case Msg(fields) =>
        AllOnCut(r, ds, fields, target.members);
    }
  }

  lemma {:induction false} AllOnCut(r: RState, ds: seq<Bytes>, ss: seq<Schema>, targets: seq<Value>)
    requires Cut(r, ds) && ConformsAll(ss, targets) && TakeAll(r, ss, targets).Some?
    ensures var (vs, q) := TakeAll(r, ss, targets).value;
      if q.at < |ds| then TakeAll(On(r, ds), ss, targets) == Some((vs, On(q, ds)))
      else StarvesAll(On(r, ds), ss, targets)
    decreases DepthAll(ss), 1, |ss|
  {
    if ss == [] {
    } else {
      ValueOnCut(r, ds, ss[0], targets[0]);
      var p := TakeValue(r, ss[0], targets[0]).value.1;
      if p.at < |ds| {
        AllOnCut(p, ds, ss[1..], targets[1..]);
      }
    }
  }

  /** The first `k` chunks of an object: all of them are read, or the reader waits for more. */
  lemma TruncatedObject(max: nat, s: Schema, v: Value, k: nat)
    requires WellFormed(s) && Conforms(s, v) && Fits(v) && 0 < max && PodMax(s) <= max
    requires 0 < k <= |ObjectChunks(max, s, v)|
    ensures var cs := ObjectChunks(max, s, v);
      if k == |cs| then ReadObject(cs[..k], s, Default(s)) == Some((v, EndOf(cs)))
      else Starves(RState(cs[..k], 0, 0), s, Default(s)) && ReadObject(cs[..k], s, Default(s)) == None
  {
    var cs := ObjectChunks(max, s, v);
    FreshRoundTrip(max, s, v);
    if k == |cs| {
      assert cs[..k] == cs;
    } else {
      ValueOnCut(RState(cs, 0, 0), cs[..k], s, Default(s));
    }
  }
}
