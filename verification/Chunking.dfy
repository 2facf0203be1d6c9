/** What the writer guarantees about the chunks it sends, for every type, value and buffer size. */
module Chunking {
  import opened Bytes
  import opened Schema
  import opened Encoding
  import opened ProtoWriter

  /** Between fields a buffer that exists is never empty. */
  predicate Open(w: WState) {
    w.cur.Some? ==> w.cur.value != []
  }

  /**
   From `w` to `r` exactly `bytes` were written: nothing already sent changed, the buffer of `w` was
   only appended to, and each chunk sent on the way is non-empty, at most `max` bytes long and less
   than `span` bytes short of `max`.
   */
  predicate Wrote(w: WState, r: WState, max: nat, span: nat, bytes: Bytes) {
    && r.Stream() == w.Stream() + bytes
    && |w.sent| <= |r.sent| && r.sent[..|w.sent|] == w.sent
    && w.Used() <= (if |w.sent| < |r.sent| then r.sent[|w.sent|] else r.Used())
    && forall k :: |w.sent| <= k < |r.sent| ==> GoodChunk(r.sent[k], max, span)
  }

  predicate GoodChunk(c: Bytes, max: nat, span: nat) {
    0 < |c| <= max && max - span < |c|
  }

  lemma WroteThen(w0: WState, w1: WState, w2: WState, max: nat, span: nat, b1: Bytes, b2: Bytes)
    requires Wrote(w0, w1, max, span, b1) && Wrote(w1, w2, max, span, b2)
    ensures Wrote(w0, w2, max, span, b1 + b2)
  {
    assert w2.Stream() == w0.Stream() + (b1 + b2);
    assert w2.sent[..|w0.sent|] == w2.sent[..|w1.sent|][..|w0.sent|];
    forall k | |w0.sent| <= k < |w2.sent| ensures GoodChunk(w2.sent[k], max, span) {
      if k < |w1.sent| {
        assert w2.sent[k] == w2.sent[..|w1.sent|][k];
      }
    }
    if |w0.sent| < |w1.sent| {
      assert w2.sent[|w0.sent|] == w2.sent[..|w1.sent|][|w0.sent|];
    }
  }

  lemma EnsureWrites(w: WState, max: nat, span: nat, n: nat)
    requires Ready(w, max) && n <= span
    requires Open(w) || n <= max
    ensures Wrote(w, Ensure(w, max, n), max, span, [])
  {
    var r := Ensure(w, max, n);
    if w.cur.Some? && |w.cur.value| + n > max {
      FlatSnoc(w.sent, w.cur.value);
    }
    assert r.Stream() == w.Stream() + [];
  }

  lemma ExtendWrites(w: WState, max: nat, span: nat, bytes: Bytes)
    requires w.cur.Some?
    ensures Wrote(w, Extend(w, bytes), max, span, bytes)
  {
    assert Extend(w, bytes).Stream() == w.Stream() + bytes;
  }

  lemma PodWrites(w: WState, max: nat, span: nat, image: Bytes)
    requires Ready(w, max) && |image| <= max && |image| <= span
    ensures Wrote(w, PutPod(w, max, image), max, span, image)
  {
    var e := Ensure(w, max, |image|);
    EnsureWrites(w, max, span, |image|);
    ExtendWrites(e, max, span, image);
    WroteThen(w, e, Extend(e, image), max, span, [], image);
    assert [] + image == image;
  }

  lemma TextRoundWrites(w: WState, max: nat, span: nat, part: Bytes)
    requires Ready(w, max) && w.cur.Some? && w.cur.value != [] && span >= 1
    ensures Wrote(w, Extend(Room(w, max), part), max, span, part)
  {
    var e := Room(w, max);
    EnsureWrites(w, max, span, if |w.cur.value| == max then 1 else 0);
    ExtendWrites(e, max, span, part);
    WroteThen(w, e, Extend(e, part), max, span, [], part);
    assert [] + part == part;
  }

  lemma {:induction false} TextWrites(w: WState, max: nat, span: nat, text: Bytes)
    requires Ready(w, max) && w.cur.Some? && w.cur.value != [] && span >= 1
    ensures Wrote(w, PutText(w, max, text), max, span, text) && PutText(w, max, text).Used() != []
    decreases |text|
  {
    if text == [] {
      assert w.Stream() == w.Stream() + [];
    } else {
      var e := Room(w, max);
      var n := Min(|text|, max - |e.cur.value|);
      var x := Extend(e, text[..n]);
      assert text == text[..n] + text[n..];
      PutTextStep(w, max, text, e, text[..n], text[n..]);
      TextRoundWrites(w, max, span, text[..n]);
      TextWrites(x, max, span, text[n..]);
      WroteThen(w, x, PutText(x, max, text[n..]), max, span, text[..n], text[n..]);
    }
  }

  lemma StringWrites(w: WState, max: nat, span: nat, text: Bytes)
    requires Ready(w, max) && 4 <= max && 4 <= span
    ensures Wrote(w, PutString(w, max, text), max, span, Encode(StrV(text)))
    ensures PutString(w, max, text).Used() != []
  {
    var p, t := PutPod(w, max, Int32Bytes(|text|)), text[..SentLength(|text|)];
    PodWrites(w, max, span, Int32Bytes(|text|));
    TextWrites(p, max, span, t);
    WroteThen(w, p, PutText(p, max, t), max, span, Int32Bytes(|text|), t);
  }

  /** Every message writes its encoding, whatever the buffer size and the element sizes are. */
  lemma {:induction false} ValueWrites(w: WState, max: nat, span: nat, s: Schema, v: Value)
    requires WellFormed(s) && Conforms(s, v) && Ready(w, max) && Open(w)
    requires PodMax(s) <= max && PodMax(s) <= span && SlotMax(s) <= span
    ensures Wrote(w, PutValue(w, max, s, v), max, span, Encode(v))
    ensures PutValue(w, max, s, v).Used() != []
    decreases v, 1
  {
    hide Wrote;
    match s {
      case Pod(_) =>
        PodWrites(w, max, span, v.image);
      case Str =>
        StringWrites(w, max, span, v.text);
      case Vec(elem, slot) =>
        var n := |v.items|;
        var e, image := Ensure(w, max, slot), Int32Bytes(n);
        var p := PutPod(e, max, image);
        RepMeasures(elem, n);
        EnsureWrites(w, max, span, slot);
        PodWrites(e, max, span, image);
        WroteThen(w, e, p, max, span, [], image);
        AllWrites(p, max, span, Rep(elem, n), v.items);
        WroteThen(w, p, PutAll(p, max, Rep(elem, n), v.items), max, span, [] + image, EncodeAll(v.items));
        assert [] + image == image;
      case Msg(fields) =>
        AllWrites(w, max, span, fields, v.members);
    }
  }

  lemma {:induction false} AllWrites(w: WState, max: nat, span: nat, ss: seq<Schema>, vs: seq<Value>)
    requires WellFormedAll(ss) && ConformsAll(ss, vs) && Ready(w, max) && Open(w)
    requires PodMaxAll(ss) <= max && PodMaxAll(ss) <= span && SlotMaxAll(ss) <= span
    ensures Wrote(w, PutAll(w, max, ss, vs), max, span, EncodeAll(vs))
    ensures Open(PutAll(w, max, ss, vs))
    ensures w.cur.Some? || ss != [] ==> PutAll(w, max, ss, vs).cur.Some?
    decreases vs, 0
  {
    if vs == [] {
      assert w.Stream() == w.Stream() + [];
    } else {
      hide Wrote;
      var m := PutValue(w, max, ss[0], vs[0]);
      ValueWrites(w, max, span, ss[0], vs[0]);
      AllWrites(m, max, span, ss[1..], vs[1..]);
      WroteThen(w, m, PutAll(m, max, ss[1..], vs[1..]), max, span, Encode(vs[0]), EncodeAll(vs[1..]));
    }
  }

  /**
   The chunks of a whole object concatenate to its flat encoding, each is 1..max bytes long, and
   all but the last are longer than `max - span`.
   */
  lemma ObjectChunksEncode(max: nat, s: Schema, v: Value, span: nat)
    requires WellFormed(s) && Conforms(s, v) && 0 < max && PodMax(s) <= max
    requires PodMax(s) <= span && SlotMax(s) <= span
    ensures var cs := ObjectChunks(max, s, v);
      && Flat(cs) == Encode(v)
      && (forall k :: 0 <= k < |cs| ==> 0 < |cs[k]| <= max)
      && (forall k :: 0 <= k < |cs| - 1 ==> max - span < |cs[k]|)
  {
    var w := PutValue(START, max, s, v);
    ValueWrites(START, max, span, s, v);
    FlatSnoc(w.sent, w.Used());
    assert START.Stream() + Encode(v) == Encode(v);
    forall k | 0 <= k < |w.sent| ensures GoodChunk(w.sent[k], max, span) {
    }
  }

  lemma {:induction false} FlatAtLeast(cs: seq<Bytes>, least: nat)
    requires forall k :: 0 <= k < |cs| ==> least <= |cs[k]|
    ensures |cs| * least <= |Flat(cs)|
  {
    if cs == [] {
    } else {
      assert forall k :: 0 <= k < |cs[1..]| ==> cs[1..][k] == cs[k + 1];
      FlatAtLeast(cs[1..], least);
      assert |cs| * least == |cs[1..]| * least + least;
    }
  }

  /** How many messages an object costs, in terms of its size and of what may be left unused. */
  lemma ChunkCountBound(max: nat, s: Schema, v: Value, span: nat)
    requires WellFormed(s) && Conforms(s, v) && 0 < max && PodMax(s) <= span && SlotMax(s) <= span <= max
    ensures (|ObjectChunks(max, s, v)| - 1) * (max - span + 1) < |Encode(v)|
    ensures |ObjectChunks(max, s, v)| <= 1 + |Encode(v)| / (max - span + 1)
  {
    var cs, least := ObjectChunks(max, s, v), max - span + 1;
    ObjectChunksEncode(max, s, v, span);
    hide ObjectChunks, PodMax, SlotMax, Encode;
    var init, last := cs[..|cs| - 1], cs[|cs| - 1];
    FlatAtLeast(init, least);
    assert cs == init + [last];
    FlatSnoc(init, last);
    QuotientAtLeast(|init|, least, |Encode(v)|);
  }

  lemma ProductsOrder(a: int, b: int, d: nat)
    requires a >= b
    ensures a * d >= b * d
  {
    assert a * d == b * d + (a - b) * d;
  }

  lemma QuotientAtLeast(k: nat, d: nat, n: nat)
    requires 0 < d && k * d <= n
    ensures k <= n / d
  {
    var q := n / d;
    assert n == q * d + n % d && (q + 1) * d == q * d + d;
    if k > q {
      ProductsOrder(k, q + 1, d);
      assert false;
    }
  }

  /** `x` lies strictly inside a plain object of the encoding of `v`, when that encoding starts at `at`. */
  predicate InsidePod(v: Value, at: nat, x: int)
    decreases v, 1
  {
    match v
    case PodV(image) => at < x < at + |image|
    case StrV(_) => at < x < at + 4
    case VecV(items) => at < x < at + 4 || InsideAnyPod(items, at + 4, x)
    case MsgV(members) => InsideAnyPod(members, at, x)
  }

  predicate InsideAnyPod(vs: seq<Value>, at: nat, x: int)
    decreases vs, 0
  {
    vs != [] && (InsidePod(vs[0], at, x) || InsideAnyPod(vs[1..], at + |Encode(vs[0])|, x))
  }

  lemma {:induction false} InsidePodIsInside(v: Value, at: nat, x: int)
    requires InsidePod(v, at, x)
    ensures at < x < at + |Encode(v)|
    decreases v, 1
  {
    match v {
      case PodV(_) =>
      case StrV(_) =>
      case VecV(items) => if InsideAnyPod(items, at + 4, x) { InsideAnyPodIsInside(items, at + 4, x); }
      case MsgV(members) => InsideAnyPodIsInside(members, at, x);
    }
  }

  lemma {:induction false} InsideAnyPodIsInside(vs: seq<Value>, at: nat, x: int)
    requires InsideAnyPod(vs, at, x)
    ensures at < x < at + |EncodeAll(vs)|
    decreases vs, 0
  {
    if InsidePod(vs[0], at, x) {
      InsidePodIsInside(vs[0], at, x);
    } else {
      InsideAnyPodIsInside(vs[1..], at + |Encode(vs[0])|, x);
    }
  }

  /** The position in the byte stream at which chunk `k` starts. */
  function Boundary(cs: seq<Bytes>, k: nat): nat
    requires k <= |cs|
  {
    |Flat(cs[..k])|
  }

  lemma BoundaryNext(cs: seq<Bytes>, k: nat)
    requires k < |cs|
    ensures Boundary(cs, k + 1) == Boundary(cs, k) + |cs[k]|
  {
    assert cs[..k + 1] == cs[..k] + [cs[k]];
    FlatSnoc(cs[..k], cs[k]);
  }

  lemma {:induction false} BoundaryGrows(cs: seq<Bytes>, i: nat, j: nat)
    requires i <= j <= |cs|
    ensures Boundary(cs, i) <= Boundary(cs, j)
    decreases j
  {
    if i == j {
    } else {
      BoundaryGrows(cs, i, j - 1);
      BoundaryNext(cs, j - 1);
    }
  }

  /** A chunk boundary made while going from `w` to `r`, the start of `r`'s buffer included. */
  predicate NewBoundary(w: WState, r: WState, x: int) {
    exists k :: |w.sent| < k <= |r.sent| && x == Boundary(r.sent, k)
  }

  lemma NewBoundaryRange(w: WState, r: WState, max: nat, span: nat, bytes: Bytes, x: int)
    requires Wrote(w, r, max, span, bytes) && NewBoundary(w, r, x)
    ensures |w.Stream()| <= x <= |r.Stream()|
  {
    var k :| |w.sent| < k <= |r.sent| && x == Boundary(r.sent, k);
    var n := |w.sent|;
    BoundaryNext(r.sent, n);
    BoundaryGrows(r.sent, n + 1, k);
    BoundaryGrows(r.sent, k, |r.sent|);
    assert r.sent[..|r.sent|] == r.sent;
  }

  lemma WroteLength(w: WState, r: WState, max: nat, span: nat, bytes: Bytes)
    requires Wrote(w, r, max, span, bytes)
    ensures |r.Stream()| == |w.Stream()| + |bytes|
  {
  }

  lemma NewBoundarySplits(w0: WState, w1: WState, w2: WState, max: nat, span: nat, b1: Bytes, b2: Bytes, x: int)
    requires Wrote(w0, w1, max, span, b1) && Wrote(w1, w2, max, span, b2) && NewBoundary(w0, w2, x)
    ensures NewBoundary(w0, w1, x) || NewBoundary(w1, w2, x)
  {
    var k :| |w0.sent| < k <= |w2.sent| && x == Boundary(w2.sent, k);
    if k <= |w1.sent| {
      assert w2.sent[..k] == w2.sent[..|w1.sent|][..k] == w1.sent[..k];
      assert x == Boundary(w1.sent, k);
    }
  }

  lemma PodBoundary(w: WState, max: nat, image: Bytes, x: int)
    requires Ready(w, max) && |image| <= max && NewBoundary(w, PutPod(w, max, image), x)
    ensures x == |w.Stream()|
  {
    var r := PutPod(w, max, image);
    var k :| |w.sent| < k <= |r.sent| && x == Boundary(r.sent, k);
    assert r.sent[..k] == r.sent == w.sent + [w.Used()];
    FlatSnoc(w.sent, w.Used());
  }

  /** No chunk boundary falls inside a plain object or a length prefix. */
  lemma {:induction false} NoPodIsSplit(w: WState, max: nat, span: nat, s: Schema, v: Value, x: int)
    requires WellFormed(s) && Conforms(s, v) && Ready(w, max) && Open(w)
    requires PodMax(s) <= max && PodMax(s) <= span && SlotMax(s) <= span
    requires NewBoundary(w, PutValue(w, max, s, v), x)
    ensures !InsidePod(v, |w.Stream()|, x)
    decreases v, 2
  {
    match s {
      case Pod(_) =>
        PodBoundary(w, max, v.image, x);
      case Str =>
        StringPrefixIsWhole(w, max, span, v.text, x);
      case Vec(elem, slot) =>
        NoPodOfVectorIsSplit(w, max, span, elem, slot, v.items, x);
      case Msg(fields) =>
        NoPodOfAllIsSplit(w, max, span, fields, v.members, x);
    }
  }

  lemma StringPrefixIsWhole(w: WState, max: nat, span: nat, text: Bytes, x: int)
    requires Ready(w, max) && 4 <= max && 4 <= span
    requires NewBoundary(w, PutString(w, max, text), x)
    ensures !(|w.Stream()| < x < |w.Stream()| + 4)
  {
    var p, t := PutPod(w, max, Int32Bytes(|text|)), text[..SentLength(|text|)];
    PodWrites(w, max, span, Int32Bytes(|text|));
    TextWrites(p, max, span, t);
    assert w.Stream() == w.Stream() + [];
    PrefixBoundary(w, w, p, PutText(p, max, t), max, span, Int32Bytes(|text|), t, x);
  }

  lemma {:induction false} NoPodOfVectorIsSplit(w: WState, max: nat, span: nat, elem: Schema, slot: nat,
                                                items: seq<Value>, x: int)
    requires WellFormed(elem) && ConformsAll(Rep(elem, |items|), items) && Ready(w, max) && Open(w)
    requires Max(4, PodMax(elem)) <= max && Max(4, PodMax(elem)) <= span && Max(slot, SlotMax(elem)) <= span
    requires NewBoundary(w, PutValue(w, max, Vec(elem, slot), VecV(items)), x)
    ensures !(|w.Stream()| < x < |w.Stream()| + 4) && !InsideAnyPod(items, |w.Stream()| + 4, x)
    decreases items, 1
  {
    var n, at := |items|, |w.Stream()|;
    var e, image := Ensure(w, max, slot), Int32Bytes(n);
    var p := PutPod(e, max, image);
    RepMeasures(elem, n);
    var r := PutAll(p, max, Rep(elem, n), items);
    EnsureWrites(w, max, span, slot);
    PodWrites(e, max, span, image);
    AllWrites(p, max, span, Rep(elem, n), items);
    PrefixBoundary(w, e, p, r, max, span, image, EncodeAll(items), x);
    assert |p.Stream()| == at + 4;
    if NewBoundary(p, r, x) {
      NoPodOfAllIsSplit(p, max, span, Rep(elem, n), items, x);
    } else if InsideAnyPod(items, at + 4, x) {
      InsideAnyPodIsInside(items, at + 4, x);
    }
  }

  /** A boundary met while writing a length prefix and what follows it is not inside the prefix. */
  lemma PrefixBoundary(w: WState, e: WState, p: WState, r: WState, max: nat, span: nat,
                       image: Bytes, tail: Bytes, x: int)
    requires Ready(e, max) && |image| == 4 <= max && 4 <= span && p == PutPod(e, max, image)
    requires e == w || (exists n: nat :: Ready(w, max) && e == Ensure(w, max, n))
    requires Wrote(w, e, max, span, []) && Wrote(p, r, max, span, tail) && NewBoundary(w, r, x)
    ensures x == |w.Stream()| || (x >= |w.Stream()| + 4 && NewBoundary(p, r, x))
  {
    PodWrites(e, max, span, image);
    WroteThen(w, e, p, max, span, [], image);
    NewBoundarySplits(w, p, r, max, span, [] + image, tail, x);
    if NewBoundary(p, r, x) {
      NewBoundaryRange(p, r, max, span, tail, x);
    } else {
      NewBoundarySplits(w, e, p, max, span, [], image, x);
      if NewBoundary(e, p, x) {
        PodBoundary(e, max, image, x);
      } else {
        NewBoundaryRange(w, e, max, span, [], x);
      }
    }
  }

  lemma {:induction false} NoPodOfAllIsSplit(w: WState, max: nat, span: nat, ss: seq<Schema>, vs: seq<Value>, x: int)
    requires WellFormedAll(ss) && ConformsAll(ss, vs) && Ready(w, max) && Open(w)
    requires PodMaxAll(ss) <= max && PodMaxAll(ss) <= span && SlotMaxAll(ss) <= span
    requires NewBoundary(w, PutAll(w, max, ss, vs), x)
    ensures !InsideAnyPod(vs, |w.Stream()|, x)
    decreases vs, 0
  {
    hide Wrote, NewBoundary, WState.Stream;
    if vs == [] {
    } else {
      var m, at := PutValue(w, max, ss[0], vs[0]), |w.Stream()|;
      var r := PutAll(m, max, ss[1..], vs[1..]);
      ValueWrites(w, max, span, ss[0], vs[0]);
      AllWrites(m, max, span, ss[1..], vs[1..]);
      WroteLength(w, m, max, span, Encode(vs[0]));
      NewBoundarySplits(w, m, r, max, span, Encode(vs[0]), EncodeAll(vs[1..]), x);
      if NewBoundary(w, m, x) {
        NoPodIsSplit(w, max, span, ss[0], vs[0], x);
        NewBoundaryRange(w, m, max, span, Encode(vs[0]), x);
        if InsideAnyPod(vs[1..], at + |Encode(vs[0])|, x) {
          InsideAnyPodIsInside(vs[1..], at + |Encode(vs[0])|, x);
        }
      } else {
        NoPodOfAllIsSplit(m, max, span, ss[1..], vs[1..], x);
        NewBoundaryRange(m, r, max, span, EncodeAll(vs[1..]), x);
        if InsidePod(vs[0], at, x) {
          InsidePodIsInside(vs[0], at, x);
        }
      }
    }
  }

  /** Seen from outside: where an object's chunks start, none of its plain objects is cut. */
  lemma ObjectPodsAreWhole(max: nat, s: Schema, v: Value, k: nat)
    requires WellFormed(s) && Conforms(s, v) && 0 < max && PodMax(s) <= max
    requires k <= |ObjectChunks(max, s, v)|
    ensures !InsidePod(v, 0, Boundary(ObjectChunks(max, s, v), k))
  {
    var cs, w, span := ObjectChunks(max, s, v), PutValue(START, max, s, v), Max(PodMax(s), SlotMax(s));
    var x := Boundary(cs, k);
    if InsidePod(v, 0, x) {
      InsidePodIsInside(v, 0, x);
      ObjectChunksEncode(max, s, v, span);
      assert cs[..|cs|] == cs && k < |cs|;
      assert cs[..k] == w.sent[..k] && x == Boundary(w.sent, k) && 0 < k;
      NoPodIsSplit(START, max, span, s, v, x);
    }
  }
}
