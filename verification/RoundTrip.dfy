/**
 Writer and reader together.  Two theorems: the reader gives back what the writer wrote, chunk for
 chunk; and the reader's result depends on the bytes alone, whatever the chunking, as long as every
 chunk but the last can hold the largest plain object.
 */
module RoundTrip {
  import opened Bytes
  import opened Schema
  import opened Encoding
  import opened ProtoWriter
  import opened Chunking
  import opened ProtoReader
  import opened Absorbing

  // ----- the reader on the writer's own chunks -----

  /** `cs` is a possible outcome of a run that passes through `w`. */
  predicate Follows(cs: seq<Bytes>, w: WState) {
    && |w.sent| < |cs| && cs[..|w.sent|] == w.sent
    && w.Used() <= cs[|w.sent|]
  }

  /** The reader's position that corresponds to a state of the writer. */
  function Cursor(cs: seq<Bytes>, w: WState): (r: RState)
    requires Follows(cs, w)
    ensures r.InBounds()
  {
    RState(cs, |w.sent|, |w.Used()|)
  }

  lemma FollowsBack(cs: seq<Bytes>, w: WState, r: WState, max: nat, span: nat, bytes: Bytes)
    requires Follows(cs, r) && Wrote(w, r, max, span, bytes)
    ensures Follows(cs, w)
  {
    assert cs[..|w.sent|] == cs[..|r.sent|][..|w.sent|];
    if |w.sent| < |r.sent| {
      assert cs[|w.sent|] == cs[..|r.sent|][|w.sent|];
    }
  }

  /** An item that was appended to the current buffer is at the cursor. */
  lemma SamePlace(cs: seq<Bytes>, w: WState, p: WState, image: Bytes)
    requires Follows(cs, w) && Follows(cs, p) && p.sent == w.sent && p.Used() == w.Used() + image
    ensures TakePod(Cursor(cs, w), |image|) == Some((image, Cursor(cs, p)))
    ensures Cursor(cs, w).Readable() >= |image| && Cursor(cs, w).Peek(|image|) == image
  {
    assert p.Used() == cs[|p.sent|][..|p.Used()|];
    assert image == p.Used()[|w.Used()|..] == Cursor(cs, w).Peek(|image|);
  }

  /** An item that was written to a new buffer is found at the start of the next chunk. */
  lemma NextPlace(cs: seq<Bytes>, w: WState, p: WState, image: Bytes)
    requires Follows(cs, w) && Follows(cs, p) && p.sent == w.sent + [w.Used()] && p.Used() == image != []
    ensures Cursor(cs, w).Readable() == 0 && Cursor(cs, w).CanPull()
    ensures Cursor(cs, w).Pull().Readable() >= |image| && Cursor(cs, w).Pull().Peek(|image|) == image
    ensures TakePod(Cursor(cs, w), |image|) == Some((image, Cursor(cs, p)))
  {
    var r := Cursor(cs, w);
    assert p.Used() == cs[|p.sent|][..|p.Used()|];
    assert cs[|w.sent|] == cs[..|p.sent|][|w.sent|] == w.Used();
    assert r.Peek(0) + r.Pull().Peek(|image|) == image;
  }

  lemma PodFollows(cs: seq<Bytes>, w: WState, max: nat, k: nat, image: Bytes)
    requires Ready(w, max) && 0 < |image| <= max
    requires var e := Ensure(w, max, k); Follows(cs, PutPod(e, max, image)) && Follows(cs, w)
    requires w.cur == None ==> w.sent == []
    ensures TakePod(Cursor(cs, w), |image|)
         == Some((image, Cursor(cs, PutPod(Ensure(w, max, k), max, image))))
  {
    var p := PutPod(Ensure(w, max, k), max, image);
    hide Cursor, Follows;
    if p.sent == w.sent {
      SamePlace(cs, w, p, image);
    } else {
      NextPlace(cs, w, p, image);
    }
  }

  lemma {:induction false} TextFollows(cs: seq<Bytes>, w: WState, max: nat, text: Bytes)
    requires Ready(w, max) && w.cur.Some? && w.cur.value != []
    requires Follows(cs, PutText(w, max, text)) && Follows(cs, w)
    ensures TakeText(Cursor(cs, w), |text|) == Some((text, Cursor(cs, PutText(w, max, text))))
    decreases |text|
  {
    hide Wrote, TakeText, Refill;
    if text == [] {
      TakeNothing(Cursor(cs, w));
    } else {
      var e := Room(w, max);
      var n := Min(|text|, max - |e.cur.value|);
      var part, rest := text[..n], text[n..];
      var x := Extend(e, part);
      var goal := PutText(w, max, text);
      assert text == part + rest;
      TextUnfolded(Cursor(cs, w), |text|);
      PutTextStep(w, max, text, e, part, rest);
      TextRoundWrites(w, max, 1, part);
      TextWrites(x, max, 1, rest);
      FollowsBack(cs, x, goal, max, 1, rest);
      if rest != [] {
        FullBufferIsSent(cs, x, max, rest);
      }
      RoundFollows(cs, w, max, part, rest);
      TextFollows(cs, x, max, rest);
      assert part + rest == text;
    }
  }

  lemma {:induction false} SentOnlyGrows(w: WState, max: nat, text: Bytes)
    requires Ready(w, max) && w.cur.Some?
    ensures w.sent <= PutText(w, max, text).sent
    decreases |text|
  {
    if text == [] {
    } else {
      var e := Room(w, max);
      var n := Min(|text|, max - |e.cur.value|);
      SentOnlyGrows(Extend(e, text[..n]), max, text[n..]);
    }
  }

  /** A buffer that is full when more text follows is sent as it is. */
  lemma FullBufferIsSent(cs: seq<Bytes>, x: WState, max: nat, rest: Bytes)
    requires Ready(x, max) && x.cur.Some? && |x.cur.value| == max && rest != []
    requires Follows(cs, PutText(x, max, rest))
    ensures |x.sent| < |cs| && cs[|x.sent|] == x.Used()
  {
    var e, goal := Room(x, max), PutText(x, max, rest);
    var n := Min(|rest|, max - |e.cur.value|);
    SentOnlyGrows(Extend(e, rest[..n]), max, rest[n..]);
    assert e.sent == x.sent + [x.Used()] && e.sent <= goal.sent;
    assert goal.sent[|x.sent|] == x.Used();
    assert cs[|x.sent|] == cs[..|goal.sent|][|x.sent|];
  }

  /** One round of the two copy loops takes the same part of the text. */
  lemma RoundFollows(cs: seq<Bytes>, w: WState, max: nat, part: Bytes, rest: Bytes)
    requires Ready(w, max) && w.cur.Some? && w.cur.value != [] && Follows(cs, w) && part != []
    requires var x := Extend(Room(w, max), part);
      && Follows(cs, x) && (rest == [] || cs[|x.sent|] == x.Used())
    ensures var x := Extend(Room(w, max), part);
      && Refill(Cursor(cs, w)).Some?
      && var p := Refill(Cursor(cs, w)).value;
      && Min(|part + rest|, p.Readable()) == |part|
      && p.Peek(|part|) == part && p.Skip(|part|) == Cursor(cs, x)
  {
    var x := Extend(Room(w, max), part);
    if x.sent == w.sent {
      SamePlace(cs, w, x, part);
    } else {
      NextPlace(cs, w, x, part);
    }
  }

  lemma LengthFollows(cs: seq<Bytes>, w: WState, max: nat, k: nat, n: nat)
    requires Ready(w, max) && 4 <= max && n < INT32_LIMIT && (w.cur == None ==> w.sent == [])
    requires Follows(cs, PutPod(Ensure(w, max, k), max, Int32Bytes(n))) && Follows(cs, w)
    ensures TakeLength(Cursor(cs, w)) == Some((n, Cursor(cs, PutPod(Ensure(w, max, k), max, Int32Bytes(n)))))
  {
    PodFollows(cs, w, max, k, Int32Bytes(n));
    Int32RoundTrip(n);
  }

  lemma StringFollows(cs: seq<Bytes>, w: WState, max: nat, text: Bytes, target: Bytes)
    requires Ready(w, max) && 4 <= max && |text| < INT32_LIMIT
    requires Follows(cs, PutString(w, max, text)) && Follows(cs, w)
    requires w.cur == None ==> w.sent == []
    ensures TakeValue(Cursor(cs, w), Str, StrV(target))
         == Some((StrV(target + text), Cursor(cs, PutString(w, max, text))))
  {
    var image := Int32Bytes(|text|);
    var p := PutPod(w, max, image);
    assert text[..SentLength(|text|)] == text;
    TextWrites(p, max, 1, text);
    FollowsBack(cs, p, PutText(p, max, text), max, 1, text);
    EnsureTwice(w, max, image);
    LengthFollows(cs, w, max, |image|, |text|);
    TextFollows(cs, p, max, text);
  }

  lemma EnsureTwice(w: WState, max: nat, image: Bytes)
    requires Ready(w, max) && |image| <= max
    ensures PutPod(Ensure(w, max, |image|), max, image) == PutPod(w, max, image)
  {
  }

  /** The reader, started where the writer started, ends where the writer ended. */
  lemma {:induction false} ValueFollows(cs: seq<Bytes>, w: WState, max: nat, s: Schema, v: Value, target: Value)
    requires WellFormed(s) && Conforms(s, v) && Conforms(s, target) && Fits(v)
    requires Ready(w, max) && Open(w) && PodMax(s) <= max && (w.cur == None ==> w.sent == [])
    requires Follows(cs, PutValue(w, max, s, v)) && Follows(cs, w)
    ensures TakeValue(Cursor(cs, w), s, target)
         == Some((Absorb(s, target, v), Cursor(cs, PutValue(w, max, s, v))))
    decreases v, 2
  {
    match s {
      case Pod(_) =>
        EnsureTwice(w, max, v.image);
        PodFollows(cs, w, max, |v.image|, v.image);
      case Str =>
        StringFollows(cs, w, max, v.text, target.text);
      case Vec(elem, slot) =>
        VectorFollows(cs, w, max, elem, slot, v.items, target.items);
      case Msg(fields) =>
        AllFollows(cs, w, max, fields, v.members, target.members);
    }
  }

  lemma {:induction false} VectorFollows(cs: seq<Bytes>, w: WState, max: nat, elem: Schema, slot: nat,
                                         items: seq<Value>, target: seq<Value>)
    requires WellFormed(elem) && ConformsAll(Rep(elem, |items|), items)
    requires ConformsAll(Rep(elem, |target|), target) && |items| < INT32_LIMIT && FitsAll(items)
    requires Ready(w, max) && Open(w) && Max(4, PodMax(elem)) <= max && (w.cur == None ==> w.sent == [])
    requires Follows(cs, PutValue(w, max, Vec(elem, slot), VecV(items))) && Follows(cs, w)
    ensures TakeValue(Cursor(cs, w), Vec(elem, slot), VecV(target))
         == Some((Absorb(Vec(elem, slot), VecV(target), VecV(items)),
                  Cursor(cs, PutValue(w, max, Vec(elem, slot), VecV(items)))))
    decreases items, 1
  {
    hide Wrote, Follows;
    var n := |items|;
    var image, ss := Int32Bytes(n), Rep(elem, n);
    var p := PutPod(Ensure(w, max, slot), max, image);
    RepMeasures(elem, n);
    var span := Max(PodMaxAll(ss), SlotMaxAll(ss));
    AllWrites(p, max, span, ss, items);
    FollowsBack(cs, p, PutAll(p, max, ss, items), max, span, EncodeAll(items));
    LengthFollows(cs, w, max, slot, n);
    AllFollows(cs, p, max, ss, items, Resize(elem, target, n));
  }

  lemma {:induction false} AllFollows(cs: seq<Bytes>, w: WState, max: nat, ss: seq<Schema>, vs: seq<Value>,
                                      targets: seq<Value>)
    requires WellFormedAll(ss) && ConformsAll(ss, vs) && ConformsAll(ss, targets) && FitsAll(vs)
    requires Ready(w, max) && Open(w) && PodMaxAll(ss) <= max && (w.cur == None ==> w.sent == [])
    requires Follows(cs, PutAll(w, max, ss, vs)) && Follows(cs, w)
    ensures TakeAll(Cursor(cs, w), ss, targets)
         == Some((AbsorbAll(ss, targets, vs), Cursor(cs, PutAll(w, max, ss, vs))))
    decreases vs, 0
  {
    if vs == [] {
    } else {
      var m := PutValue(w, max, ss[0], vs[0]);
      var span := Max(PodMaxAll(ss), SlotMaxAll(ss));
      ValueWrites(w, max, span, ss[0], vs[0]);
      AllWrites(m, max, span, ss[1..], vs[1..]);
      FollowsBack(cs, m, PutAll(m, max, ss[1..], vs[1..]), max, span, EncodeAll(vs[1..]));
      ValueFollows(cs, w, max, ss[0], vs[0], targets[0]);
      AllFollows(cs, m, max, ss[1..], vs[1..], targets[1..]);
    }
  }

  /** Reading an object of type `s` from the start of a chunk stream. */
  function ReadObject(cs: seq<Bytes>, s: Schema, target: Value): (x: Option<(Value, RState)>)
    requires cs != [] && Conforms(s, target)
  {
    TakeValue(RState(cs, 0, 0), s, target)
  }

  /** The reader has pulled every chunk there is and consumed the last to its end. */
  function EndOf(cs: seq<Bytes>): RState
    requires cs != []
  {
    RState(cs, |cs| - 1, |cs[|cs| - 1]|)
  }

  lemma WrittenIsRead(max: nat, s: Schema, v: Value, target: Value)
    requires WellFormed(s) && Conforms(s, v) && Conforms(s, target) && Fits(v) && 0 < max && PodMax(s) <= max
    ensures var cs := ObjectChunks(max, s, v);
      ReadObject(cs, s, target) == Some((Absorb(s, target, v), EndOf(cs)))
  {
    var cs, w := ObjectChunks(max, s, v), PutValue(START, max, s, v);
    var span := Max(PodMax(s), SlotMax(s));
    assert cs[..|w.sent|] == w.sent;
    ValueWrites(START, max, span, s, v);
    FollowsBack(cs, START, w, max, span, Encode(v));
    ValueFollows(cs, START, max, s, v, target);
  }

  // ----- the reader on any chunking -----

  /** Every chunk but the last can hold `least` bytes. */
  predicate Roomy(cs: seq<Bytes>, least: nat) {
    forall k :: 0 <= k < |cs| - 1 ==> least <= |cs[k]|
  }

  lemma PullKeepsRest(r: RState)
    requires r.InBounds() && r.CanPull()
    ensures r.Rest() == r.Peek(r.Readable()) + r.Pull().Rest()
  {
    assert r.chunks[r.at + 1..] == [r.chunks[r.at + 1]] + r.chunks[r.at + 2..];
    assert r.Pull().Rest() == r.chunks[r.at + 1] + Flat(r.chunks[r.at + 2..]);
  }

  lemma SkipKeepsRest(r: RState, n: nat)
    requires r.InBounds() && n <= r.Readable()
    ensures r.Rest() == r.Peek(n) + r.Skip(n).Rest()
  {
    assert r.chunks[r.at][r.offset..] == r.Peek(n) + r.chunks[r.at][r.offset + n..];
  }

  /** What is taken is the front of the remaining bytes, or there are not enough of them. */
  predicate TakesFront(x: Option<(Bytes, RState)>, rest: Bytes, n: nat) {
    match x
    case None => |rest| < n
    case Some((b, q)) => n <= |rest| && b == rest[..n] && q.InBounds() && q.Rest() == rest[n..]
  }

  lemma PodTakesFront(r: RState, n: nat)
    requires r.InBounds() && Roomy(r.chunks, n)
    ensures TakesFront(TakePod(r, n), r.Rest(), n)
  {
    var readable := r.Readable();
    if n <= readable {
      SkipKeepsRest(r, n);
    } else if !r.CanPull() {
      assert r.chunks[r.at + 1..] == [];
      SkipKeepsRest(r, readable);
    } else {
      var p := r.Pull();
      PullKeepsRest(r);
      if p.Readable() < n - readable {
        assert !p.CanPull() && p.chunks[p.at + 1..] == [];
      } else {
        SkipKeepsRest(p, n - readable);
      }
    }
  }

  lemma FrontsJoin(t: Option<(Bytes, RState)>, x: Option<(Bytes, RState)>, part: Bytes, rest: Bytes, whole: Bytes,
                   n: nat)
    requires |part| <= n && TakesFront(x, rest, n - |part|) && whole == part + rest
    requires t == if x == None then None else Some((part + x.value.0, x.value.1))
    ensures TakesFront(t, whole, n)
  {
    if x.Some? {
      var m := n - |part|;
      assert whole[..n] == part + rest[..m];
      assert whole[n..] == rest[m..];
    }
  }

  lemma RefillKeepsRest(r: RState)
    requires r.InBounds() && Refill(r).Some?
    ensures Refill(r).value.Rest() == r.Rest()
  {
    if r.Readable() == 0 {
      PullKeepsRest(r);
      assert r.Peek(0) + r.Pull().Rest() == r.Pull().Rest();
    }
  }

  lemma TextRoundTakesFront(r: RState, n: nat, p: RState, k: nat)
    requires r.InBounds() && n > 0 && Refill(r) == Some(p) && k == Min(n, p.Readable())
    requires TakesFront(TakeText(p.Skip(k), n - k), p.Skip(k).Rest(), n - k)
    ensures TakesFront(TakeText(r, n), r.Rest(), n)
  {
    hide TakeText, Refill, RState.Rest, RState.Peek, TakesFront;
    var x := TakeText(p.Skip(k), n - k);
    TextUnfolded(r, n);
    RefillKeepsRest(r);
    SkipKeepsRest(p, k);
    FrontsJoin(TakeText(r, n), x, p.Peek(k), p.Skip(k).Rest(), r.Rest(), n);
  }

  lemma {:induction false} TextTakesFront(r: RState, n: nat)
    requires r.InBounds()
    ensures TakesFront(TakeText(r, n), r.Rest(), n)
    decreases |r.chunks| - r.at, n
  {
    if n == 0 {
    } else {
      match Refill(r)
      case None =>
        assert r.chunks[r.at + 1..] == [];
      case Some(p) =>
        var k := Min(n, p.Readable());
        TextTakesFront(p.Skip(k), n - k);
        TextRoundTakesFront(r, n, p, k);
    }
  }

  /** The reader takes what the flat decoder decodes. */
  predicate Agrees(s: Schema, target: Value, x: Option<(Value, RState)>, d: Option<(Value, Bytes)>)
    requires Conforms(s, target)
    requires d.Some? ==> Conforms(s, d.value.0)
  {
    match d
    case None => x == None
    case Some((v, rest)) =>
      x.Some? && x.value.1.InBounds() && x.value.0 == Absorb(s, target, v) && x.value.1.Rest() == rest
  }

  predicate AgreesAll(ss: seq<Schema>, targets: seq<Value>, x: Option<(seq<Value>, RState)>,
                      d: Option<(seq<Value>, Bytes)>)
    requires ConformsAll(ss, targets)
    requires d.Some? ==> ConformsAll(ss, d.value.0)
  {
    match d
    case None => x == None
    case Some((vs, rest)) =>
      x.Some? && x.value.1.InBounds() && x.value.0 == AbsorbAll(ss, targets, vs) && x.value.1.Rest() == rest
  }

  lemma LengthTakesFront(r: RState)
    requires r.InBounds() && Roomy(r.chunks, 4)
    ensures match TakeLength(r)
      case None => |r.Rest()| < 4 || BytesInt32(r.Rest()[..4]) < 0
      case Some((n, q)) => |r.Rest()| >= 4 && BytesInt32(r.Rest()[..4]) == n && q.Rest() == r.Rest()[4..]
  {
    PodTakesFront(r, 4);
  }

  lemma TextSlices(b: Bytes, n: nat)
    requires n + 4 <= |b|
    ensures b[4..][..n] == b[4..4 + n] && b[4..][n..] == b[4 + n..]
  {
  }

  /**
   Re-chunking independence: on any bytes at all, well formed or not, the reader does what the flat
   decoder does, if every chunk but the last can hold the type's largest plain object.
   */
  lemma {:induction false} ReaderIsDecoder(r: RState, s: Schema, target: Value)
    requires r.InBounds() && Conforms(s, target) && Roomy(r.chunks, PodMax(s))
    ensures Agrees(s, target, TakeValue(r, s, target), Decode(s, r.Rest()))
    decreases Depth(s), 0, 0
  {
    hide RState.Rest;
    match s {
      case Pod(size) =>
        PodTakesFront(r, size);
      case Str =>
        LengthTakesFront(r);
        if TakeLength(r).Some? {
          var (n, p) := TakeLength(r).value;
          var b := r.Rest();
          TextTakesFront(p, n);
          if n + 4 <= |b| {
            TextSlices(b, n);
          }
        }
      case Vec(elem, _) =>
        LengthTakesFront(r);
        if TakeLength(r).Some? {
          var (n, p) := TakeLength(r).value;
          RepMeasures(elem, n);
          ReaderIsDecoderAll(p, Rep(elem, n), Resize(elem, target.items, n));
        }
      case Msg(fields) =>
        ReaderIsDecoderAll(r, fields, target.members);
    }
  }

  lemma {:induction false} ReaderIsDecoderAll(r: RState, ss: seq<Schema>, targets: seq<Value>)
    requires r.InBounds() && ConformsAll(ss, targets) && Roomy(r.chunks, PodMaxAll(ss))
    ensures AgreesAll(ss, targets, TakeAll(r, ss, targets), DecodeAll(ss, r.Rest()))
    decreases DepthAll(ss), 1, |ss|
  {
    if ss == [] {
    } else {
      ReaderIsDecoder(r, ss[0], targets[0]);
      if Decode(ss[0], r.Rest()).Some? {
        var (v, p) := TakeValue(r, ss[0], targets[0]).value;
        var (w, rest) := Decode(ss[0], r.Rest()).value;
        ReaderIsDecoderAll(p, ss[1..], targets[1..]);
        if DecodeAll(ss[1..], rest).Some? {
          var vs := DecodeAll(ss[1..], rest).value.0;
          assert ([w] + vs)[1..] == vs;
        }
      }
    }
  }

  lemma RestFromStart(cs: seq<Bytes>)
    requires cs != []
    ensures RState(cs, 0, 0).Rest() == Flat(cs)
  {
    assert cs[0][0..] == cs[0];
  }

  /** Any two roomy chunkings of the same bytes read alike. */
  lemma ChunkingDoesNotMatter(cs: seq<Bytes>, ds: seq<Bytes>, s: Schema, target: Value)
    requires cs != [] && ds != [] && Conforms(s, target)
    requires Roomy(cs, PodMax(s)) && Roomy(ds, PodMax(s)) && Flat(cs) == Flat(ds)
    ensures ReadObject(cs, s, target).Some? <==> ReadObject(ds, s, target).Some?
    ensures ReadObject(cs, s, target).Some? ==>
      ReadObject(cs, s, target).value.0 == ReadObject(ds, s, target).value.0
  {
    RestFromStart(cs);
    RestFromStart(ds);
    ReaderIsDecoder(RState(cs, 0, 0), s, target);
    ReaderIsDecoder(RState(ds, 0, 0), s, target);
  }

  lemma FlatOfNonEmpty(cs: seq<Bytes>)
    requires cs != [] && cs[|cs| - 1] != []
    ensures Flat(cs) != []
  {
    assert cs == cs[..|cs| - 1] + [cs[|cs| - 1]];
    FlatSnoc(cs[..|cs| - 1], cs[|cs| - 1]);
  }

  lemma NothingLeft(q: RState)
    requires q.InBounds() && q.Rest() == [] && q.chunks[|q.chunks| - 1] != []
    ensures q == EndOf(q.chunks)
  {
    if q.CanPull() {
      FlatOfNonEmpty(q.chunks[q.at + 1..]);
      assert false;
    }
  }

  /**
   The writer's bytes, cut up anew: the value comes back, and if the last chunk is not empty the
   reader has pulled all of them and consumed the last to its end.
   */
  lemma RechunkedIsRead(max: nat, s: Schema, v: Value, target: Value, ds: seq<Bytes>)
    requires WellFormed(s) && Conforms(s, v) && Conforms(s, target) && Fits(v) && 0 < max && PodMax(s) <= max
    requires ds != [] && Roomy(ds, PodMax(s)) && Flat(ds) == Flat(ObjectChunks(max, s, v))
    ensures ReadObject(ds, s, target).Some? && ReadObject(ds, s, target).value.0 == Absorb(s, target, v)
    ensures ds[|ds| - 1] != [] ==> ReadObject(ds, s, target).value.1 == EndOf(ds)
  {
    hide TakeValue, Decode, Encode, Absorb, Flat, ObjectChunks, RState.Rest;
    ObjectChunksEncode(max, s, v, Max(PodMax(s), SlotMax(s)));
    RestFromStart(ds);
    assert Encode(v) + [] == Encode(v);
    DecodeEncode(s, v, []);
    ReaderIsDecoder(RState(ds, 0, 0), s, target);
    var q := ReadObject(ds, s, target).value.1;
    if ds[|ds| - 1] != [] {
      NothingLeft(q);
    }
  }

  /**
   The bound is the best possible: for every size there is a type with no larger plain object and a
   chunking of one of its encodings, one byte short of the bound, that cannot be read.
   */
  lemma RoomIsNeeded(n: nat, x: Bytes, y: Bytes)
    requires 0 < n && |x| == n && |y| == n
    ensures var s, v := Msg([Pod(n), Pod(n)]), MsgV([PodV(x), PodV(y)]);
      var cs := [x, y[..n - 1], y[n - 1..]];
      && WellFormed(s) && Conforms(s, v) && Fits(v) && PodMax(s) == n
      && Flat(cs) == Encode(v) && cs[2] != [] && Roomy(cs, n - 1)
      && ReadObject(cs, s, Default(s)) == None
  {
    var cs := [x, y[..n - 1], y[n - 1..]];
    TwoPods(n, x, y);
    assert Flat(cs) == x + y by {
      assert cs[1..] == [y[..n - 1], y[n - 1..]] && cs[1..][1..] == [y[n - 1..]];
      assert Flat([y[n - 1..]]) == y[n - 1..] + [];
    }
    var r, zero := RState(cs, 0, 0), PodV(seq(n, _ => 0));
    assert TakePod(r, n) == Some((r.Peek(n), r.Skip(n)));
    assert TakeValue(r, Pod(n), zero) == Some((PodV(r.Peek(n)), r.Skip(n)));
    assert TakePod(r.Skip(n), n) == None;
    assert TakeValue(r.Skip(n), Pod(n), zero) == None;
    OnePod(n, zero);
    assert TakeAll(r.Skip(n), [Pod(n)], [zero]) == None;
    TwoPods(n, zero.image, zero.image);
    assert [Pod(n), Pod(n)][1..] == [Pod(n)] && [zero, zero][1..] == [zero];
    assert TakeAll(r, [Pod(n), Pod(n)], [zero, zero]) == None;
    TwoDefaults(n);
  }

  lemma OnePod(n: nat, v: Value)
    requires 0 < n && Conforms(Pod(n), v)
    ensures WellFormedAll([Pod(n)]) && ConformsAll([Pod(n)], [v]) && FitsAll([v])
    ensures PodMaxAll([Pod(n)]) == n && EncodeAll([v]) == v.image
  {
    assert [Pod(n)][1..] == [] && [v][1..] == [];
    assert EncodeAll([v]) == Encode(v) + EncodeAll([v][1..]);
  }

  lemma TwoPods(n: nat, x: Bytes, y: Bytes)
    requires 0 < n && |x| == n && |y| == n
    ensures var s, v := Msg([Pod(n), Pod(n)]), MsgV([PodV(x), PodV(y)]);
      WellFormed(s) && Conforms(s, v) && Fits(v) && PodMax(s) == n && Encode(v) == x + y
  {
    var fields, members := [Pod(n), Pod(n)], [PodV(x), PodV(y)];
    assert fields[1..] == [Pod(n)] && members[1..] == [PodV(y)];
    OnePod(n, PodV(y));
    assert EncodeAll(members) == Encode(members[0]) + EncodeAll(members[1..]);
  }

  lemma TwoDefaults(n: nat)
    ensures Default(Msg([Pod(n), Pod(n)])) == MsgV([PodV(seq(n, _ => 0)), PodV(seq(n, _ => 0))])
  {
    var fields := [Pod(n), Pod(n)];
    assert fields[1..] == [Pod(n)] && fields[1..][1..] == [];
    assert DefaultAll(fields[1..]) == [Default(Pod(n))] + DefaultAll(fields[1..][1..]);
    assert DefaultAll(fields) == [Default(Pod(n))] + DefaultAll(fields[1..]);
  }

  // ----- the two directions at once -----

  lemma {:induction false} FreshElements(elem: Schema, n: nat)
    ensures Resize(elem, [], n) == DefaultAll(Rep(elem, n))
  {
    if n == 0 {
    } else {
      RepTail(elem, n);
      FreshElements(elem, n - 1);
    }
  }

  /** Whatever is read into a fresh object has lengths that fit. */
  lemma {:induction false} TakenFits(r: RState, s: Schema)
    requires r.InBounds()
    ensures TakeValue(r, s, Default(s)).Some? ==> Fits(TakeValue(r, s, Default(s)).value.0)
    decreases Depth(s), 0, 0
  {
    match s {
      case Pod(_) =>
      case Str =>
        if TakeLength(r).Some? {
          var (n, p) := TakeLength(r).value;
          if TakeText(p, n).Some? {
            assert [] + TakeText(p, n).value.0 == TakeText(p, n).value.0;
          }
        }
      case Vec(elem, _) =>
        if TakeLength(r).Some? {
          var (n, p) := TakeLength(r).value;
          RepMeasures(elem, n);
          FreshElements(elem, n);
          TakenAllFit(p, Rep(elem, n));
        }
      case Msg(fields) =>
        TakenAllFit(r, fields);
    }
  }

  lemma {:induction false} TakenAllFit(r: RState, ss: seq<Schema>)
    requires r.InBounds()
    ensures TakeAll(r, ss, DefaultAll(ss)).Some? ==>
      FitsAll(TakeAll(r, ss, DefaultAll(ss)).value.0) && |TakeAll(r, ss, DefaultAll(ss)).value.0| == |ss|
    decreases DepthAll(ss), 1, |ss|
  {
    if ss == [] {
    } else {
      var targets := DefaultAll(ss);
      assert targets[0] == Default(ss[0]) && targets[1..] == DefaultAll(ss[1..]);
      TakenFits(r, ss[0]);
      if TakeValue(r, ss[0], targets[0]).Some? {
        var (v, p) := TakeValue(r, ss[0], targets[0]).value;
        TakenAllFit(p, ss[1..]);
        if TakeAll(p, ss[1..], targets[1..]).Some? {
          var vs := TakeAll(p, ss[1..], targets[1..]).value.0;
          assert ([v] + vs)[1..] == vs;
        }
      }
    }
  }

  /** Serialising and reading into a fresh object gives the object back exactly when its lengths fit. */
  lemma FreshRoundTrip(max: nat, s: Schema, v: Value)
    requires WellFormed(s) && Conforms(s, v) && 0 < max && PodMax(s) <= max
    ensures var cs := ObjectChunks(max, s, v);
      ReadObject(cs, s, Default(s)) == Some((v, EndOf(cs))) <==> Fits(v)
  {
    var cs := ObjectChunks(max, s, v);
    if Fits(v) {
      WrittenIsRead(max, s, v, Default(s));
      DefaultIsBlank(s, v);
      AbsorbsExactlyIntoBlank(s, Default(s), v);
    } else {
      TakenFits(RState(cs, 0, 0), s);
    }
  }

  /** Reading into a used object gives the object back exactly when the used one was blank. */
  lemma ReusedRoundTrip(max: nat, s: Schema, v: Value, target: Value)
    requires WellFormed(s) && Conforms(s, v) && Conforms(s, target) && Fits(v) && 0 < max && PodMax(s) <= max
    ensures var cs := ObjectChunks(max, s, v);
      ReadObject(cs, s, target) == Some((v, EndOf(cs))) <==> Blank(s, target, v)
  {
    WrittenIsRead(max, s, v, target);
    AbsorbsExactlyIntoBlank(s, target, v);
  }
}
