/**
 Where the writer puts things.  An object is a list of atoms, each with the room that is asked for
 before it is written: plain objects and string prefixes ask for their size, a vector's prefix asks
 for the `sizeof` of an element if that is more, and the text of a string goes byte by byte.  Atoms
 are placed one after the other, and one that finds too little room starts a new buffer.
 */
module BufferLayout {
  import opened Bytes
  import opened Schema
  import opened Encoding
  import opened ProtoWriter
  import opened Chunking

  datatype Atom = Atom(need: nat, bytes: Bytes)

  function Singles(text: Bytes): (atoms: seq<Atom>)
    ensures |atoms| == |text|
  {
    seq(|text|, i requires 0 <= i < |text| => Atom(1, [text[i]]))
  }

  function Atoms(s: Schema, v: Value): seq<Atom>
    requires Conforms(s, v)
    decreases v, 1
  {
    match s
    case Pod(size) => [Atom(size, v.image)]
    case Str => [Atom(4, Int32Bytes(|v.text|))] + Singles(v.text[..SentLength(|v.text|)])
    case Vec(elem, slot) =>
      [Atom(Max(slot, 4), Int32Bytes(|v.items|))] + AtomsAll(Rep(elem, |v.items|), v.items)
    case Msg(fields) => AtomsAll(fields, v.members)
  }

  function AtomsAll(ss: seq<Schema>, vs: seq<Value>): seq<Atom>
    requires ConformsAll(ss, vs)
    decreases vs, 0
  {
    if vs == [] then [] else Atoms(ss[0], vs[0]) + AtomsAll(ss[1..], vs[1..])
  }

  function Place(w: WState, max: nat, a: Atom): WState {
    match w.cur
    case None => WState(w.sent, Some(a.bytes))
    case Some(b) =>
      if |b| + a.need > max then WState(w.sent + [b], Some(a.bytes)) else WState(w.sent, Some(b + a.bytes))
  }

  function Pack(w: WState, max: nat, atoms: seq<Atom>): WState
    decreases |atoms|
  {
    if atoms == [] then w else Pack(Place(w, max, atoms[0]), max, atoms[1..])
  }

  lemma {:induction false} PackAppend(w: WState, max: nat, a: seq<Atom>, b: seq<Atom>)
    ensures Pack(w, max, a + b) == Pack(Pack(w, max, a), max, b)
    decreases |a|
  {
    if a == [] {
      assert a + b == b;
    } else {
      assert (a + b)[0] == a[0] && (a + b)[1..] == a[1..] + b;
      PackAppend(Place(w, max, a[0]), max, a[1..], b);
    }
  }

  lemma PackThen(w: WState, max: nat, a: Atom, rest: seq<Atom>)
    ensures Pack(w, max, [a] + rest) == Pack(Place(w, max, a), max, rest)
  {
    assert ([a] + rest)[1..] == rest;
  }

  lemma PodPlaced(w: WState, max: nat, image: Bytes)
    requires Ready(w, max) && |image| <= max
    ensures PutPod(w, max, image) == Place(w, max, Atom(|image|, image))
  {
    assert [] + image == image;
  }

  lemma PrefixPlaced(w: WState, max: nat, slot: nat, prefix: Bytes)
    requires Ready(w, max) && |prefix| == 4 <= max
    ensures PutPod(Ensure(w, max, slot), max, prefix) == Place(w, max, Atom(Max(slot, 4), prefix))
  {
    assert [] + prefix == prefix;
  }

  lemma SinglesFirst(text: Bytes)
    requires text != []
    ensures Singles(text) == [Atom(1, [text[0]])] + Singles(text[1..])
  {
  }

  /** Bytes that fit are appended. */
  lemma {:induction false} FillPacks(w: WState, max: nat, part: Bytes)
    requires w.cur.Some? && |w.cur.value| + |part| <= max
    ensures Pack(w, max, Singles(part)) == Extend(w, part)
    decreases |part|
  {
    if part == [] {
      assert Extend(w, part) == w by {
        assert w.cur.value + [] == w.cur.value;
      }
    } else {
      SinglesFirst(part);
      PackThen(w, max, Atom(1, [part[0]]), Singles(part[1..]));
      var next := Extend(w, [part[0]]);
      FillPacks(next, max, part[1..]);
      assert w.cur.value + [part[0]] + part[1..] == w.cur.value + part;
    }
  }

  /** One round of the copy loop places its part byte by byte. */
  lemma PartPacks(w: WState, max: nat, part: Bytes)
    requires Ready(w, max) && w.cur.Some? && part != [] && |Room(w, max).cur.value| + |part| <= max
    ensures Pack(w, max, Singles(part)) == Extend(Room(w, max), part)
  {
    FillPacks(Room(w, max), max, part);
    SinglesFirst(part);
    var a, rest := Atom(1, [part[0]]), Singles(part[1..]);
    PackThen(w, max, a, rest);
    PackThen(Room(w, max), max, a, rest);
    assert Place(w, max, a) == Place(Room(w, max), max, a) by {
      assert [] + [part[0]] == [part[0]];
    }
  }

  lemma {:induction false} TextPacks(w: WState, max: nat, text: Bytes)
    requires Ready(w, max) && w.cur.Some?
    ensures PutText(w, max, text) == Pack(w, max, Singles(text))
    decreases |text|
  {
    hide PutText, Pack;
    if text == [] {
      PutNothing(w, max);
      PackNothing(w, max);
    } else {
      var e := Room(w, max);
      var n := Min(|text|, max - |e.cur.value|);
      var part, left := text[..n], text[n..];
      assert text == part + left && Singles(text) == Singles(part) + Singles(left);
      PutTextStep(w, max, text, e, part, left);
      PartPacks(w, max, part);
      PackAppend(w, max, Singles(part), Singles(left));
      TextPacks(Extend(e, part), max, left);
    }
  }

  lemma PackNothing(w: WState, max: nat)
    ensures Pack(w, max, []) == w
  {
  }

  /** The writer places an object's atoms one after the other. */
  lemma {:induction false} ValuePacks(w: WState, max: nat, s: Schema, v: Value)
    requires Conforms(s, v) && Ready(w, max) && PodMax(s) <= max
    ensures PutValue(w, max, s, v) == Pack(w, max, Atoms(s, v))
    decreases v, 1
  {
    hide PutPod, PutText, Pack, Place, Ensure, Int32Bytes;
    match s {
      case Pod(_) =>
        PodPlaced(w, max, v.image);
        PackThen(w, max, Atom(|v.image|, v.image), []);
        PackNothing(PutPod(w, max, v.image), max);
        assert [Atom(|v.image|, v.image)] + [] == [Atom(|v.image|, v.image)];
      case Str =>
        var prefix, text := Int32Bytes(|v.text|), v.text[..SentLength(|v.text|)];
        PodPlaced(w, max, prefix);
        PackThen(w, max, Atom(4, prefix), Singles(text));
        TextPacks(PutPod(w, max, prefix), max, text);
      case Vec(elem, slot) =>
        var n := |v.items|;
        var prefix, ss := Int32Bytes(n), Rep(elem, n);
        RepMeasures(elem, n);
        PrefixPlaced(w, max, slot, prefix);
        PackThen(w, max, Atom(Max(slot, 4), prefix), AtomsAll(ss, v.items));
        AllPack(PutPod(Ensure(w, max, slot), max, prefix), max, ss, v.items);
      case Msg(fields) =>
        AllPack(w, max, fields, v.members);
    }
  }

  lemma {:induction false} AllPack(w: WState, max: nat, ss: seq<Schema>, vs: seq<Value>)
    requires ConformsAll(ss, vs) && Ready(w, max) && PodMaxAll(ss) <= max
    ensures PutAll(w, max, ss, vs) == Pack(w, max, AtomsAll(ss, vs))
    decreases vs, 0
  {
    hide Pack, Place, PutValue, Atoms;
    if vs == [] {
      PackNothing(w, max);
    } else {
      ValuePacks(w, max, ss[0], vs[0]);
      AllPack(PutValue(w, max, ss[0], vs[0]), max, ss[1..], vs[1..]);
      PackAppend(w, max, Atoms(ss[0], vs[0]), AtomsAll(ss[1..], vs[1..]));
    }
  }

  // ----- what this means for the buffers -----

  /** Buffer number `k` of a run that has got to `r`: sent already, or the current one. */
  function BufferAt(r: WState, k: nat): Bytes
    requires k <= |r.sent|
  {
    if k < |r.sent| then r.sent[k] else r.Used()
  }

  /** Placing an atom only adds to the current buffer, or sends it as it is. */
  lemma {:induction false} PackKeeps(w: WState, max: nat, atoms: seq<Atom>)
    requires w.cur.Some?
    ensures var r := Pack(w, max, atoms);
      r.cur.Some? && w.sent <= r.sent && w.cur.value <= BufferAt(r, |w.sent|)
    decreases |atoms|
  {
    if atoms == [] {
    } else {
      PackKeeps(Place(w, max, atoms[0]), max, atoms[1..]);
    }
  }

  /**
   A vector asks for its element's `sizeof`, whether or not it has elements: the buffer in use is sent
   as it is exactly when it lacks that room or the four bytes of the prefix, and the prefix then
   starts the next one; otherwise the prefix comes right behind what the buffer holds.
   */
  lemma VectorReserves(w: WState, max: nat, elem: Schema, slot: nat, items: seq<Value>, b: Bytes)
    requires ConformsAll(Rep(elem, |items|), items) && Ready(w, max) && 4 <= max && PodMax(elem) <= max
    requires w.cur == Some(b)
    ensures var r, k := PutValue(w, max, Vec(elem, slot), VecV(items)), |w.sent|;
      if |b| + slot > max || |b| + 4 > max then
        w.sent + [b] <= r.sent && Int32Bytes(|items|) <= BufferAt(r, k + 1)
      else
        w.sent <= r.sent && b + Int32Bytes(|items|) <= BufferAt(r, k)
  {
    hide Int32Bytes, PutValue, Pack, AtomsAll;
    var prefix := Int32Bytes(|items|);
    var a, rest := Atom(Max(slot, 4), prefix), AtomsAll(Rep(elem, |items|), items);
    RepMeasures(elem, |items|);
    ValuePacks(w, max, Vec(elem, slot), VecV(items));
    PackThen(w, max, a, rest);
    PackKeeps(Place(w, max, a), max, rest);
    PlacedAt(w, max, a, Pack(w, max, [a] + rest), b);
  }

  /** Where an atom is, at the end of a run that keeps what was there after it had been placed. */
  lemma PlacedAt(w: WState, max: nat, a: Atom, r: WState, b: Bytes)
    requires w.cur == Some(b)
    requires var p := Place(w, max, a); p.sent <= r.sent && p.cur.value <= BufferAt(r, |p.sent|)
    ensures var k := |w.sent|;
      if |b| + a.need > max then w.sent + [b] <= r.sent && a.bytes <= BufferAt(r, k + 1)
      else w.sent <= r.sent && b + a.bytes <= BufferAt(r, k)
  {
    hide BufferAt;
  }

  /** A plain object: the same, with its own size. */
  lemma PodReserves(w: WState, max: nat, image: Bytes, b: Bytes)
    requires Ready(w, max) && |image| <= max && w.cur == Some(b)
    ensures var r := PutValue(w, max, Pod(|image|), PodV(image));
      if |b| + |image| > max then r.sent == w.sent + [b] && r.Used() == image
      else r.sent == w.sent && r.Used() == b + image
  {
    ValuePacks(w, max, Pod(|image|), PodV(image));
    PackNothing(Place(w, max, Atom(|image|, image)), max);
    PackThen(w, max, Atom(|image|, image), []);
    assert [Atom(|image|, image)] + [] == [Atom(|image|, image)];
  }

  /** A string asks for room for its prefix only; its text fills every buffer to the last byte. */
  lemma StringFills(w: WState, max: nat, text: Bytes, b: Bytes)
    requires Ready(w, max) && 4 <= max && |text| < INT32_LIMIT && w.cur == Some(b)
    ensures var r, k := PutValue(w, max, Str, StrV(text)), |w.sent|;
      && (if |b| + 4 > max then w.sent + [b] <= r.sent && Int32Bytes(|text|) <= BufferAt(r, k + 1)
          else w.sent <= r.sent && b + Int32Bytes(|text|) <= BufferAt(r, k))
      && forall j :: (if |b| + 4 > max then k + 1 else k) <= j < |r.sent| ==> |r.sent[j]| == max
  {
    var prefix := Int32Bytes(|text|);
    var p := Place(w, max, Atom(4, prefix));
    assert text[..SentLength(|text|)] == text;
    ValuePacks(w, max, Str, StrV(text));
    PackThen(w, max, Atom(4, prefix), Singles(text));
    hide Int32Bytes, PutValue, Pack;
    PackKeeps(p, max, Singles(text));
    SinglesFill(p, max, text);
  }

  lemma {:induction false} SinglesFill(w: WState, max: nat, text: Bytes)
    requires w.cur.Some? && |w.cur.value| <= max && max > 0
    ensures var r := Pack(w, max, Singles(text));
      w.sent <= r.sent && forall j :: |w.sent| <= j < |r.sent| ==> |r.sent[j]| == max
    decreases |text|
  {
    if text == [] {
    } else {
      var a := Atom(1, [text[0]]);
      var next := Place(w, max, a);
      SinglesFirst(text);
      PackThen(w, max, a, Singles(text[1..]));
      hide Pack;
      SinglesFill(next, max, text[1..]);
    }
  }

  /** An empty vector of 8-byte elements behind a plain object of 10 bytes, in buffers of 16. */
  lemma EmptyVectorFlushes(image: Bytes)
    requires |image| == 10
    ensures var s := Msg([Pod(10), Vec(Pod(8), 8)]);
      Conforms(s, MsgV([PodV(image), VecV([])]))
      && ObjectChunks(16, s, MsgV([PodV(image), VecV([])])) == [image, Int32Bytes(0)]
  {
    var fields, members := [Pod(10), Vec(Pod(8), 8)], [PodV(image), VecV([])];
    assert fields[1..] == [Vec(Pod(8), 8)] && fields[1..][1..] == [];
    assert members[1..] == [VecV([])] && members[1..][1..] == [];
    var w := WState([], Some(image));
    assert [] + image == image && [] + Int32Bytes(0) == Int32Bytes(0) && [] + [image] == [image];
    assert PutValue(START, 16, Pod(10), members[0]) == w;
    var r := WState([image], Some(Int32Bytes(0)));
    assert PutValue(w, 16, Vec(Pod(8), 8), members[1]) == r;
    assert ConformsAll([], []) && Conforms(Vec(Pod(8), 8), members[1]) && ConformsAll(fields[1..], members[1..]);
    assert PutAll(w, 16, fields[1..], members[1..]) == r;
    assert PutAll(START, 16, fields, members) == r;
    assert PutValue(START, 16, Msg(fields), MsgV(members)) == r;
  }
}
