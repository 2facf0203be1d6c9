/**
 The flat encoding of a message, with chunking forgotten: what the writer's bytes are and what a
 byte string means to the reader.  `Encode` and `Decode` are the reference both are proved against.
 */
module Encoding {
  import opened Bytes
  import opened Schema

  /** How many bytes of an `n`-byte string the writer copies: its length as an `int32_t`, if positive. */
  function SentLength(n: nat): (r: nat)
    ensures r <= n
    ensures n < INT32_LIMIT ==> r == n
  {
    SentAtMost(n);
    Max(0, ToInt32(n))
  }

  lemma SentAtMost(n: nat)
    ensures ToInt32(n) <= n
  {
    var q := (n + INT32_LIMIT) / INT32_SPAN;
    assert n + INT32_LIMIT == q * INT32_SPAN + (n + INT32_LIMIT) % INT32_SPAN;
  }

  function Encode(v: Value): Bytes
    decreases v, 1
  {
    match v
    case PodV(image) => image
    case StrV(text) => Int32Bytes(|text|) + text[..SentLength(|text|)]
    case VecV(items) => Int32Bytes(|items|) + EncodeAll(items)
    case MsgV(members) => EncodeAll(members)
  }

  function EncodeAll(vs: seq<Value>): Bytes
    decreases vs, 0
  {
    if vs == [] then [] else Encode(vs[0]) + EncodeAll(vs[1..])
  }

  function EncodedEach(vs: seq<Value>): (bs: seq<Bytes>)
    ensures |bs| == |vs|
  {
    seq(|vs|, i requires 0 <= i < |vs| => Encode(vs[i]))
  }

  /** Values one after the other are encoded one after the other. */
  lemma {:induction false} EncodeAllIsFlat(vs: seq<Value>)
    ensures EncodeAll(vs) == Flat(EncodedEach(vs))
  {
    if vs == [] {
    } else {
      assert EncodedEach(vs)[1..] == EncodedEach(vs[1..]);
      EncodeAllIsFlat(vs[1..]);
    }
  }

  /** The wire format: memory images, and counts of four bytes, low-order first, before what they count. */
  lemma WireFormat(image: Bytes, text: Bytes, items: seq<Value>)
    requires |text| < INT32_LIMIT
    ensures Encode(PodV(image)) == image && Encode(MsgV(items)) == Flat(EncodedEach(items))
    ensures var b, n := Encode(StrV(text)), |text|;
      && |b| == 4 + n && b[4..] == text
      && b[0] as int == n % 0x100 && b[1] as int == n / 0x100 % 0x100
      && b[2] as int == n / 0x1_0000 % 0x100 && b[3] as int == n / 0x100_0000 % 0x100
    ensures var b, n := Encode(VecV(items)), |items|;
      && |b| >= 4 && b[4..] == Flat(EncodedEach(items))
      && b[0] as int == n % 0x100 && b[1] as int == n / 0x100 % 0x100
      && b[2] as int == n / 0x1_0000 % 0x100 && b[3] as int == n / 0x100_0000 % 0x100
  {
    EncodeAllIsFlat(items);
    LowOrderFirst(|text|);
    LowOrderFirst(|items|);
    hide Int32Bytes, EncodeAll, Flat, EncodedEach;
  }

  /** A value taken from the front of `b`, with the bytes after it. */
  function Decode(s: Schema, b: Bytes): (r: Option<(Value, Bytes)>)
    ensures r.Some? ==> Conforms(s, r.value.0) && Fits(r.value.0)
    decreases Depth(s), 0, 0
  {
    match s
    case Pod(size) => if |b| < size then None else Some((PodV(b[..size]), b[size..]))
    case Str =>
      if |b| < 4 || BytesInt32(b[..4]) < 0 || |b| - 4 < BytesInt32(b[..4]) then None else
      var n := BytesInt32(b[..4]);
      Some((StrV(b[4..4 + n]), b[4 + n..]))
    case Vec(elem, _) =>
      if |b| < 4 || BytesInt32(b[..4]) < 0 then None else
      var n := BytesInt32(b[..4]);
      RepMeasures(elem, n);
      (match DecodeAll(Rep(elem, n), b[4..])
       case None => None
       case Some((items, rest)) => Some((VecV(items), rest)))
    case Msg(fields) =>
      (match DecodeAll(fields, b)
       case None => None
       case Some((members, rest)) => Some((MsgV(members), rest)))
  }

  function DecodeAll(ss: seq<Schema>, b: Bytes): (r: Option<(seq<Value>, Bytes)>)
    ensures r.Some? ==> ConformsAll(ss, r.value.0) && FitsAll(r.value.0)
    decreases DepthAll(ss), 1, |ss|
  {
    if ss == [] then Some(([], b)) else
    match Decode(ss[0], b)
    case None => None
    case Some((v, rest)) =>
      match DecodeAll(ss[1..], rest)
      case None => None
      case Some((vs, last)) =>
        assert ([v] + vs)[1..] == vs;
        Some(([v] + vs, last))
  }

  /** Decoding undoes encoding, for every type and value, whatever bytes follow. */
  lemma {:induction false} DecodeEncode(s: Schema, v: Value, rest: Bytes)
    requires Conforms(s, v) && Fits(v)
    ensures Decode(s, Encode(v) + rest) == Some((v, rest))
    decreases v, 1
  {
    var b := Encode(v) + rest;
    match s {
      case Pod(size) =>
      case Str =>
        PrefixDecodes(|v.text|, v.text + rest, b);
        var n := |v.text|;
        assert b[4..4 + n] == b[4..][..n] == v.text && b[4 + n..] == b[4..][n..] == rest;
      case Vec(elem, _) =>
        PrefixDecodes(|v.items|, EncodeAll(v.items) + rest, b);
        DecodeEncodeAll(Rep(elem, |v.items|), v.items, rest);
      case Msg(fields) =>
        DecodeEncodeAll(fields, v.members, rest);
    }
  }

  lemma PrefixDecodes(n: nat, rest: Bytes, b: Bytes)
    requires n < INT32_LIMIT && b == Int32Bytes(n) + rest
    ensures |b| >= 4 && BytesInt32(b[..4]) == n && b[4..] == rest
  {
    assert b[..4] == Int32Bytes(n);
    Int32RoundTrip(n);
  }

  lemma {:induction false} DecodeEncodeAll(ss: seq<Schema>, vs: seq<Value>, rest: Bytes)
    requires ConformsAll(ss, vs) && FitsAll(vs)
    ensures DecodeAll(ss, EncodeAll(vs) + rest) == Some((vs, rest))
    decreases vs, 0
  {
    if vs == [] {
      assert EncodeAll(vs) + rest == rest;
    } else {
      assert EncodeAll(vs) + rest == Encode(vs[0]) + (EncodeAll(vs[1..]) + rest);
      DecodeEncode(ss[0], vs[0], EncodeAll(vs[1..]) + rest);
      DecodeEncodeAll(ss[1..], vs[1..], rest);
      assert [vs[0]] + vs[1..] == vs;
    }
  }

  /** Encoding undoes decoding: a value has no other encoding than the bytes it was decoded from. */
  lemma {:induction false} EncodeDecode(s: Schema, b: Bytes)
    ensures Decode(s, b).Some? ==> Encode(Decode(s, b).value.0) + Decode(s, b).value.1 == b
    decreases Depth(s), 0, 0
  {
    match s {
      case Pod(size) =>
      case Str =>
        StringEncodeDecode(b);
      case Vec(elem, _) =>
        if Decode(s, b).Some? {
          var n := BytesInt32(b[..4]);
          RepMeasures(elem, n);
          EncodeDecodeAll(Rep(elem, n), b[4..]);
          var (items, rest) := DecodeAll(Rep(elem, n), b[4..]).value;
          BytesRoundTrip(b[..4]);
          hide DecodeAll, EncodeAll, Int32Bytes, BytesInt32;
          PrefixJoins(b, b[..4], EncodeAll(items), rest);
        }
      case Msg(fields) =>
        EncodeDecodeAll(fields, b);
    }
  }

  lemma StringEncodeDecode(b: Bytes)
    ensures Decode(Str, b).Some? ==> Encode(Decode(Str, b).value.0) + Decode(Str, b).value.1 == b
  {
    if Decode(Str, b).Some? {
      var n := BytesInt32(b[..4]);
      var text, rest := b[4..4 + n], b[4 + n..];
      BytesRoundTrip(b[..4]);
      assert text[..SentLength(n)] == text;
      hide Int32Bytes, BytesInt32, SentLength;
      assert b[4..] == text + rest;
      PrefixJoins(b, b[..4], text, rest);
    }
  }

  lemma PrefixJoins(b: Bytes, prefix: Bytes, text: Bytes, rest: Bytes)
    requires |prefix| == 4 <= |b| && prefix == b[..4] && text + rest == b[4..]
    ensures (prefix + text) + rest == b
  {
    assert (prefix + text) + rest == prefix + (text + rest);
  }

  lemma {:induction false} EncodeDecodeAll(ss: seq<Schema>, b: Bytes)
    ensures DecodeAll(ss, b).Some? ==> EncodeAll(DecodeAll(ss, b).value.0) + DecodeAll(ss, b).value.1 == b
    decreases DepthAll(ss), 1, |ss|
  {
    if ss == [] {
      assert EncodeAll([]) + b == b;
    } else if DecodeAll(ss, b).Some? {
      var (v, rest) := Decode(ss[0], b).value;
      var (vs, last) := DecodeAll(ss[1..], rest).value;
      EncodeDecode(ss[0], b);
      EncodeDecodeAll(ss[1..], rest);
      assert ([v] + vs)[1..] == vs;
      assert Encode(v) + EncodeAll(vs) + last == Encode(v) + (EncodeAll(vs) + last);
    }
  }

  /** Exactly the values whose lengths fit an `int32_t` survive the encoding. */
  lemma EncodingIsFaithful(s: Schema, v: Value, rest: Bytes)
    requires Conforms(s, v)
    ensures Decode(s, Encode(v) + rest) == Some((v, rest)) <==> Fits(v)
  {
    if Fits(v) {
      DecodeEncode(s, v, rest);
    }
  }
}
