/**
 Which chunkings a reader survives.  A plain object may straddle one chunk boundary but not two, so
 reading fails exactly when some chunk lies inside a plain object and ends before it does.
 */
module Straddling {
  import opened Bytes
  import opened Schema
  import opened Encoding
  import opened Chunking
  import opened ProtoReader
  import opened Absorbing
  import opened RoundTrip

  /** A chunk after the first begins inside the `n` bytes at `x`, or with them, and ends before they do. */
  predicate Engulfs(cs: seq<Bytes>, x: int, n: nat) {
    exists k :: 0 < k < |cs| && x <= Boundary(cs, k) && Boundary(cs, k + 1) < x + n
  }

  /** This happens to a plain object or a length prefix of `v`, whose encoding starts at `at`. */
  predicate EngulfsSome(v: Value, at: int, cs: seq<Bytes>)
    decreases v, 1
  {
    match v
    case PodV(image) => Engulfs(cs, at, |image|)
    case StrV(_) => Engulfs(cs, at, 4)
    case VecV(items) => Engulfs(cs, at, 4) || EngulfsAny(items, at + 4, cs)
    case MsgV(members) => EngulfsAny(members, at, cs)
  }

  predicate EngulfsAny(vs: seq<Value>, at: int, cs: seq<Bytes>)
    decreases vs, 0
  {
    vs != [] && (EngulfsSome(vs[0], at, cs) || EngulfsAny(vs[1..], at + |Encode(vs[0])|, cs))
  }

  /** The first chunk is current, or some of the current one is consumed. */
  predicate Begun(r: RState) {
    r.at == 0 || r.offset > 0
  }

  /** How many bytes have been consumed. */
  function Pos(r: RState): int
    requires r.InBounds()
  {
    |Flat(r.chunks)| - |r.Rest()|
  }

  lemma PosIs(r: RState)
    requires r.InBounds()
    ensures Pos(r) == Boundary(r.chunks, r.at) + r.offset
  {
    var cs := r.chunks;
    assert cs == cs[..r.at] + cs[r.at..] && cs[r.at..] == [cs[r.at]] + cs[r.at + 1..];
    FlatAppend(cs[..r.at], cs[r.at..]);
    assert Flat(cs[r.at..]) == cs[r.at] + Flat(cs[r.at + 1..]);
  }

  /** Only the next chunk can be the one in the way. */
  lemma EngulfedByNext(r: RState, n: nat)
    requires r.InBounds() && Begun(r)
    ensures Engulfs(r.chunks, Pos(r), n) <==> r.CanPull() && r.Readable() + r.Pull().Readable() < n
  {
    PosIs(r);
    BoundaryNext(r.chunks, r.at);
    if r.CanPull() {
      BoundaryNext(r.chunks, r.at + 1);
    }
    EngulfedBy(r.chunks, r.at, r.offset, Pos(r), n);
  }

  lemma EngulfedBy(cs: seq<Bytes>, at: nat, offset: nat, x: int, n: nat)
    requires at < |cs| && x == Boundary(cs, at) + offset <= Boundary(cs, at + 1) && (at == 0 || offset > 0)
    ensures Engulfs(cs, x, n) <==> at + 1 < |cs| && Boundary(cs, at + 2) < x + n
  {
    hide Boundary;
    if at + 1 < |cs| && Boundary(cs, at + 2) < x + n {
      assert x <= Boundary(cs, at + 1) && Boundary(cs, at + 1 + 1) < x + n;
    }
    if Engulfs(cs, x, n) {
      var k :| 0 < k < |cs| && x <= Boundary(cs, k) && Boundary(cs, k + 1) < x + n;
      if k <= at {
        BoundaryGrows(cs, k, at);
        assert false;
      } else {
        BoundaryGrows(cs, at + 2, k + 1);
      }
    }
  }

  /** A plain object is taken exactly when its bytes are there and no chunk is inside it. */
  lemma PodTakenExactly(r: RState, n: nat)
    requires r.InBounds() && Begun(r) && n > 0
    ensures match TakePod(r, n)
      case None => |r.Rest()| < n || Engulfs(r.chunks, Pos(r), n)
      case Some((b, q)) => !Engulfs(r.chunks, Pos(r), n) && Begun(q) && TakesFront(Some((b, q)), r.Rest(), n)
  {
    EngulfedByNext(r, n);
    hide Engulfs;
    var readable := r.Readable();
    if n <= readable {
      SkipKeepsRest(r, n);
    } else if !r.CanPull() {
      assert r.chunks[r.at + 1..] == [];
      SkipKeepsRest(r, readable);
    } else {
      var p := r.Pull();
      PullKeepsRest(r);
      if p.Readable() >= n - readable {
        SkipKeepsRest(p, n - readable);
      }
    }
  }

  lemma {:induction false} TextKeepsBegun(r: RState, n: nat)
    requires r.InBounds() && Begun(r) && TakeText(r, n).Some?
    ensures Begun(TakeText(r, n).value.1)
    decreases |r.chunks| - r.at, n
  {
    if n == 0 {
    } else {
      TextEndsBegun(r, n);
    }
  }

  lemma {:induction false} TextEndsBegun(r: RState, n: nat)
    requires r.InBounds() && n > 0 && TakeText(r, n).Some?
    ensures Begun(TakeText(r, n).value.1)
    decreases |r.chunks| - r.at, n
  {
    var p := Refill(r).value;
    var k := Min(n, p.Readable());
    if k < n {
      TextEndsBegun(p.Skip(k), n - k);
    } else {
      TakeNothing(p.Skip(k));
    }
  }

  /** The reader takes what the flat decoder decodes, unless a chunk is in the way. */
  predicate TakesExactly(r: RState, s: Schema, target: Value, x: Option<(Value, RState)>, d: Option<(Value, Bytes)>)
    requires r.InBounds() && Conforms(s, target)
    requires d.Some? ==> Conforms(s, d.value.0)
  {
    match d
    case None => x == None
    case Some((v, rest)) =>
      if EngulfsSome(v, Pos(r), r.chunks) then x == None
      else x.Some? && x.value.0 == Absorb(s, target, v) && EndsAt(r, x.value.1, rest)
  }

  predicate TakesAllExactly(r: RState, ss: seq<Schema>, targets: seq<Value>, x: Option<(seq<Value>, RState)>,
                            d: Option<(seq<Value>, Bytes)>)
    requires r.InBounds() && ConformsAll(ss, targets)
    requires d.Some? ==> ConformsAll(ss, d.value.0)
  {
    match d
    case None => x == None
    case Some((vs, rest)) =>
      if EngulfsAny(vs, Pos(r), r.chunks) then x == None
      else x.Some? && x.value.0 == AbsorbAll(ss, targets, vs) && EndsAt(r, x.value.1, rest)
  }

  /** From `r` the reader got to `q`, with `rest` to come. */
  predicate EndsAt(r: RState, q: RState, rest: Bytes) {
    q.chunks == r.chunks && q.InBounds() && Begun(q) && q.Rest() == rest
  }

  lemma LengthTakenExactly(r: RState)
    requires r.InBounds() && Begun(r)
    ensures match TakeLength(r)
      case None => |r.Rest()| < 4 || BytesInt32(r.Rest()[..4]) < 0 || Engulfs(r.chunks, Pos(r), 4)
      case Some((n, q)) =>
        && !Engulfs(r.chunks, Pos(r), 4) && |r.Rest()| >= 4 && BytesInt32(r.Rest()[..4]) == n
        && EndsAt(r, q, r.Rest()[4..]) && Pos(q) == Pos(r) + 4
  {
    PodTakenExactly(r, 4);
  }

  lemma StringTakenExactly(r: RState, target: Bytes)
    requires r.InBounds() && Begun(r)
    ensures TakesExactly(r, Str, StrV(target), TakeValue(r, Str, StrV(target)), Decode(Str, r.Rest()))
  {
    hide Engulfs, RState.Rest, Pos, TakeValue, Decode, TakeLength, TakeText;
    LengthTakenExactly(r);
    LengthIsNeeded(r, target);
    if TakeLength(r).Some? {
      var (n, p) := TakeLength(r).value;
      var b := r.Rest();
      TextTakesFront(p, n);
      StringUnfolded(r, target, n, p);
      StringDecoded(b, n);
      if TakeText(p, n).Some? {
        TextKeepsBegun(p, n);
        TextSlices(b, n);
      }
    }
  }

  lemma LengthIsNeeded(r: RState, target: Bytes)
    requires r.InBounds()
    ensures TakeLength(r) == None ==> TakeValue(r, Str, StrV(target)) == None
    ensures Decode(Str, r.Rest()).Some? ==> |r.Rest()| >= 4 && BytesInt32(r.Rest()[..4]) >= 0
    ensures Decode(Str, r.Rest()).Some? ==> Decode(Str, r.Rest()).value.0.StrV?
  {
  }

  lemma StringUnfolded(r: RState, target: Bytes, n: nat, p: RState)
    requires r.InBounds() && TakeLength(r) == Some((n, p))
    ensures var x := TakeText(p, n);
      TakeValue(r, Str, StrV(target)) == if x == None then None else Some((StrV(target + x.value.0), x.value.1))
  {
  }

  lemma StringDecoded(b: Bytes, n: nat)
    requires |b| >= 4 && BytesInt32(b[..4]) == n
    ensures Decode(Str, b) == if |b| - 4 < n then None else Some((StrV(b[4..4 + n]), b[4 + n..]))
  {
  }

  lemma {:induction false} ReaderExactly(r: RState, s: Schema, target: Value)
    requires r.InBounds() && Begun(r) && WellFormed(s) && Conforms(s, target)
    ensures TakesExactly(r, s, target, TakeValue(r, s, target), Decode(s, r.Rest()))
    decreases Depth(s), 0, 0
  {
    hide Engulfs, RState.Rest;
    match s {
      case Pod(size) =>
        PodTakenExactly(r, size);
      case Str =>
        StringTakenExactly(r, target.text);
      case Vec(elem, slot) =>
        VectorTakenExactly(r, elem, slot, target.items);
      case Msg(fields) =>
        ReaderExactlyAll(r, fields, target.members);
    }
  }

  lemma {:induction false} VectorTakenExactly(r: RState, elem: Schema, slot: nat, target: seq<Value>)
    requires r.InBounds() && Begun(r) && WellFormed(elem) && ConformsAll(Rep(elem, |target|), target)
    ensures var s := Vec(elem, slot);
      TakesExactly(r, s, VecV(target), TakeValue(r, s, VecV(target)), Decode(s, r.Rest()))
    decreases Depth(elem), 2, 0
  {
    LengthTakenExactly(r);
    hide Engulfs, RState.Rest, Pos, TakesAllExactly;
    if TakeLength(r).Some? {
      var (n, p) := TakeLength(r).value;
      RepMeasures(elem, n);
      RepWellFormed(elem, n);
      var ss, ts, b := Rep(elem, n), Resize(elem, target, n), r.Rest();
      ReaderExactlyAll(p, ss, ts);
      ItemsTaken(r, elem, slot, target, n, p, TakeAll(p, ss, ts), DecodeAll(ss, b[4..]));
      VectorUnfolded(r, elem, slot, target, n, p);
      DecodedUnfolded(elem, slot, b, n);
      hide TakesExactly, TakeValue, Decode, TakeAll, DecodeAll;
    }
  }

  lemma ItemsTaken(r: RState, elem: Schema, slot: nat, target: seq<Value>, n: nat, p: RState,
                   x: Option<(seq<Value>, RState)>, d: Option<(seq<Value>, Bytes)>)
    requires r.InBounds() && p.InBounds() && ConformsAll(Rep(elem, |target|), target)
    requires !Engulfs(r.chunks, Pos(r), 4) && p.chunks == r.chunks && Pos(p) == Pos(r) + 4
    requires d.Some? ==> |d.value.0| == n && ConformsAll(Rep(elem, n), d.value.0)
    requires TakesAllExactly(p, Rep(elem, n), Resize(elem, target, n), x, d)
    ensures TakesExactly(r, Vec(elem, slot), VecV(target),
                         if x == None then None else Some((VecV(x.value.0), x.value.1)),
                         if d == None then None else Some((VecV(d.value.0), d.value.1)))
  {
    hide Engulfs, RState.Rest, Pos, Resize, Rep, ConformsAll;
  }

  lemma VectorUnfolded(r: RState, elem: Schema, slot: nat, target: seq<Value>, n: nat, p: RState)
    requires r.InBounds() && ConformsAll(Rep(elem, |target|), target) && TakeLength(r) == Some((n, p))
    ensures var x := TakeAll(p, Rep(elem, n), Resize(elem, target, n));
      TakeValue(r, Vec(elem, slot), VecV(target)) == if x == None then None else Some((VecV(x.value.0), x.value.1))
  {
  }

  lemma DecodedUnfolded(elem: Schema, slot: nat, b: Bytes, n: nat)
    requires |b| >= 4 && BytesInt32(b[..4]) == n
    ensures var d := DecodeAll(Rep(elem, n), b[4..]);
      Decode(Vec(elem, slot), b) == if d == None then None else Some((VecV(d.value.0), d.value.1))
  {
  }

  lemma {:induction false} RepWellFormed(elem: Schema, n: nat)
    requires WellFormed(elem)
    ensures WellFormedAll(Rep(elem, n))
  {
    if n == 0 {
    } else {
      RepTail(elem, n);
      RepWellFormed(elem, n - 1);
    }
  }

  lemma {:induction false} ReaderExactlyAll(r: RState, ss: seq<Schema>, targets: seq<Value>)
    requires r.InBounds() && Begun(r) && WellFormedAll(ss) && ConformsAll(ss, targets)
    ensures TakesAllExactly(r, ss, targets, TakeAll(r, ss, targets), DecodeAll(ss, r.Rest()))
    decreases DepthAll(ss), 1, |ss|
  {
    if ss == [] {
    } else {
      ReaderExactly(r, ss[0], targets[0]);
      hide Engulfs, RState.Rest, TakesExactly;
      if TakeValue(r, ss[0], targets[0]) == None {
        FirstNotTaken(r, ss, targets);
      } else {
        FirstTaken(r, ss, targets);
        var (v, p) := TakeValue(r, ss[0], targets[0]).value;
        ReaderExactlyAll(p, ss[1..], targets[1..]);
        RestTaken(r, ss, targets);
      }
    }
  }

  lemma FirstNotTaken(r: RState, ss: seq<Schema>, targets: seq<Value>)
    requires r.InBounds() && ss != [] && ConformsAll(ss, targets)
    requires TakesExactly(r, ss[0], targets[0], None, Decode(ss[0], r.Rest()))
    requires TakeValue(r, ss[0], targets[0]) == None
    ensures TakesAllExactly(r, ss, targets, TakeAll(r, ss, targets), DecodeAll(ss, r.Rest()))
  {
    hide Engulfs, RState.Rest, Pos;
    var d := Decode(ss[0], r.Rest());
    if d.Some? && DecodeAll(ss[1..], d.value.1).Some? {
      var vs := DecodeAll(ss[1..], d.value.1).value.0;
      assert ([d.value.0] + vs)[0] == d.value.0;
    }
  }

  lemma FirstTaken(r: RState, ss: seq<Schema>, targets: seq<Value>)
    requires r.InBounds() && ss != [] && ConformsAll(ss, targets) && TakeValue(r, ss[0], targets[0]).Some?
    requires TakesExactly(r, ss[0], targets[0], TakeValue(r, ss[0], targets[0]), Decode(ss[0], r.Rest()))
    ensures Decode(ss[0], r.Rest()).Some?
    ensures var (v, p), (w, rest) := TakeValue(r, ss[0], targets[0]).value, Decode(ss[0], r.Rest()).value;
      && EndsAt(r, p, rest) && v == Absorb(ss[0], targets[0], w)
      && Pos(p) == Pos(r) + |Encode(w)| && !EngulfsSome(w, Pos(r), r.chunks)
  {
    EncodeDecode(ss[0], r.Rest());
  }

  lemma RestTaken(r: RState, ss: seq<Schema>, targets: seq<Value>)
    requires r.InBounds() && ss != [] && ConformsAll(ss, targets)
    requires TakeValue(r, ss[0], targets[0]).Some? && Decode(ss[0], r.Rest()).Some?
    requires var (v, p), (w, rest) := TakeValue(r, ss[0], targets[0]).value, Decode(ss[0], r.Rest()).value;
      && EndsAt(r, p, rest) && v == Absorb(ss[0], targets[0], w)
      && Pos(p) == Pos(r) + |Encode(w)| && !EngulfsSome(w, Pos(r), r.chunks)
      && TakesAllExactly(p, ss[1..], targets[1..], TakeAll(p, ss[1..], targets[1..]), DecodeAll(ss[1..], rest))
    ensures TakesAllExactly(r, ss, targets, TakeAll(r, ss, targets), DecodeAll(ss, r.Rest()))
  {
    hide TakeAll, DecodeAll, TakeValue, Decode, Absorb, EngulfsSome, Engulfs, RState.Rest, Pos;
    var (v, p) := TakeValue(r, ss[0], targets[0]).value;
    var (w, rest) := Decode(ss[0], r.Rest()).value;
    var x, d := TakeAll(p, ss[1..], targets[1..]), DecodeAll(ss[1..], rest);
    AllUnfolded(r, ss, targets, r.Rest());
    if d.Some? {
      var vs, ws := d.value.0, [w] + d.value.0;
      assert ws[0] == w && ws[1..] == vs;
      assert EngulfsAny(ws, Pos(r), r.chunks) <==> EngulfsAny(vs, Pos(p), p.chunks);
      assert AbsorbAll(ss, targets, ws) == [v] + AbsorbAll(ss[1..], targets[1..], vs);
    }
  }

  lemma AllUnfolded(r: RState, ss: seq<Schema>, targets: seq<Value>, b: Bytes)
    requires r.InBounds() && ss != [] && ConformsAll(ss, targets)
    requires TakeValue(r, ss[0], targets[0]).Some? && Decode(ss[0], b).Some?
    ensures var (v, p) := TakeValue(r, ss[0], targets[0]).value;
      var x := TakeAll(p, ss[1..], targets[1..]);
      TakeAll(r, ss, targets) == if x == None then None else Some(([v] + x.value.0, x.value.1))
    ensures var (w, rest) := Decode(ss[0], b).value;
      var d := DecodeAll(ss[1..], rest);
      DecodeAll(ss, b) == if d == None then None else Some(([w] + d.value.0, d.value.1))
  {
  }

  /**
   The exact condition: a value's bytes, cut up in any way at all, can be read if and only if no
   chunk lies inside one of its plain objects and ends before it does; and then the value comes
   back, and with a non-empty last chunk the reader is at its end.
   */
  lemma ChunkingIsReadExactly(cs: seq<Bytes>, s: Schema, v: Value, target: Value)
    requires cs != [] && WellFormed(s) && Conforms(s, v) && Conforms(s, target) && Fits(v) && Flat(cs) == Encode(v)
    ensures ReadObject(cs, s, target).Some? <==> !EngulfsSome(v, 0, cs)
    ensures ReadObject(cs, s, target).Some? ==> ReadObject(cs, s, target).value.0 == Absorb(s, target, v)
    ensures ReadObject(cs, s, target).Some? && cs[|cs| - 1] != [] ==> ReadObject(cs, s, target).value.1 == EndOf(cs)
  {
    hide Encode, Flat, Decode, TakeValue, EngulfsSome, Absorb, RState.Rest;
    var r := RState(cs, 0, 0);
    RestFromStart(cs);
    assert Encode(v) + [] == Encode(v);
    DecodeEncode(s, v, []);
    ReaderExactly(r, s, target);
    assert Pos(r) == 0;
    if ReadObject(cs, s, target).Some? && cs[|cs| - 1] != [] {
      NothingLeft(ReadObject(cs, s, target).value.1);
    }
  }

  /** Chunks that can hold the largest plain object, the last one excepted, are never in the way. */
  lemma RoomyIsInTheClear(cs: seq<Bytes>, s: Schema, v: Value)
    requires cs != [] && WellFormed(s) && Conforms(s, v) && Fits(v) && Flat(cs) == Encode(v)
    requires Roomy(cs, PodMax(s))
    ensures !EngulfsSome(v, 0, cs)
  {
    RestFromStart(cs);
    assert Encode(v) + [] == Encode(v);
    DecodeEncode(s, v, []);
    ReaderIsDecoder(RState(cs, 0, 0), s, v);
    ChunkingIsReadExactly(cs, s, v, v);
  }

  // ----- faults -----

  /** A reader that waits for more has not been given the bytes of a value. */
  lemma {:induction false} StarvingIsShort(r: RState, s: Schema, target: Value)
    requires r.InBounds() && Begun(r) && WellFormed(s) && Conforms(s, target) && Starves(r, s, target)
    ensures Decode(s, r.Rest()) == None
    decreases Depth(s), 0, 0
  {
    match s {
      case Pod(size) =>
        PodIsShort(r, size);
      case Str =>
        StringIsShort(r, target.text);
      case Vec(elem, slot) =>
        if StarvesPod(r, 4) {
          PodIsShort(r, 4);
        } else {
          LengthTakenExactly(r);
          var (n, p) := TakeLength(r).value;
          RepMeasures(elem, n);
          RepWellFormed(elem, n);
          NoneOfIsShort(p, Rep(elem, n), Resize(elem, target.items, n));
          DecodedUnfolded(elem, slot, r.Rest(), n);
        }
      case Msg(fields) =>
        NoneOfIsShort(r, fields, target.members);
    }
  }

  lemma PodIsShort(r: RState, n: nat)
    requires r.InBounds() && StarvesPod(r, n)
    ensures |r.Rest()| < n
  {
    assert r.chunks[r.at + 1..] == [];
  }

  lemma StringIsShort(r: RState, target: Bytes)
    requires r.InBounds() && Begun(r) && Starves(r, Str, StrV(target))
    ensures Decode(Str, r.Rest()) == None
  {
    hide RState.Rest, Pos, Engulfs;
    if StarvesPod(r, 4) {
      PodIsShort(r, 4);
    } else {
      LengthTakenExactly(r);
      var (n, p) := TakeLength(r).value;
      TextTakesFront(p, n);
      StringDecoded(r.Rest(), n);
    }
  }

  lemma {:induction false} NoneOfIsShort(r: RState, ss: seq<Schema>, targets: seq<Value>)
    requires r.InBounds() && Begun(r) && WellFormedAll(ss) && ConformsAll(ss, targets) && StarvesAll(r, ss, targets)
    ensures DecodeAll(ss, r.Rest()) == None
    decreases DepthAll(ss), 1, |ss|
  {
    hide RState.Rest, Pos, Engulfs;
    if TakeValue(r, ss[0], targets[0]) == None {
      StarvingIsShort(r, ss[0], targets[0]);
    } else {
      ReaderExactly(r, ss[0], targets[0]);
      FirstTaken(r, ss, targets);
      var p := TakeValue(r, ss[0], targets[0]).value.1;
      NoneOfIsShort(p, ss[1..], targets[1..]);
    }
  }

  /** So when all the bytes of a value are there and still it cannot be read, that is a fault. */
  lemma EngulfedIsFault(cs: seq<Bytes>, s: Schema, v: Value, target: Value)
    requires cs != [] && WellFormed(s) && Conforms(s, v) && Conforms(s, target) && Fits(v) && Flat(cs) == Encode(v)
    ensures !Starves(RState(cs, 0, 0), s, target)
  {
    RestFromStart(cs);
    assert Encode(v) + [] == Encode(v);
    DecodeEncode(s, v, []);
    if Starves(RState(cs, 0, 0), s, target) {
      StarvingIsShort(RState(cs, 0, 0), s, target);
      assert false;
    }
  }

  /** A negative length is a fault, too, wherever its bytes are. */
  lemma NegativeLengthIsFault(r: RState, target: Bytes)
    requires r.InBounds() && Begun(r) && |r.Rest()| >= 4 && BytesInt32(r.Rest()[..4]) < 0
    ensures TakeValue(r, Str, StrV(target)) == None && !Starves(r, Str, StrV(target))
  {
    LengthTakenExactly(r);
    if StarvesPod(r, 4) {
      PodIsShort(r, 4);
      assert false;
    }
  }
}
