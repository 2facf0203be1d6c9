/**
 The chunking writer.  `Writer` is the imperative form: a buffer filled in place and handed to the
 sink when the next item does not fit.  The functions before it say what each call does to the
 sequence of chunks already sent and the bytes in the current buffer.
 */
module ProtoWriter {
  import opened Bytes
  import opened Schema
  import opened Encoding

  /** `sent` are the chunks handed to the sink; `cur` is the filled part of the buffer, if there is one. */
  datatype WState = WState(sent: seq<Bytes>, cur: Option<Bytes>) {
    function Used(): Bytes {
      if cur.Some? then cur.value else []
    }

    /** Every byte written so far, in order. */
    function Stream(): Bytes {
      Flat(sent) + Used()
    }
  }

  const START := WState([], None)

  /** The buffer is not overfull. */
  predicate Ready(w: WState, max: nat) {
    0 < max && |w.Used()| <= max
  }

  /** What `EnsureBuffer` does: flush if `n` more bytes do not fit, and always leave a buffer. */
  function Ensure(w: WState, max: nat, n: nat): (r: WState)
    requires Ready(w, max)
    ensures Ready(r, max) && r.cur.Some?
  {
    match w.cur
    case None => WState(w.sent, Some([]))
    case Some(b) => if |b| + n > max then WState(w.sent + [b], Some([])) else w
  }

  /** A buffer is sent exactly when it lacks room; no byte is lost, and there is room afterwards. */
  lemma EnsureMakesRoom(w: WState, max: nat, n: nat)
    requires Ready(w, max) && n <= max
    ensures var r := Ensure(w, max, n);
      && r.Stream() == w.Stream() && |r.Used()| + n <= max
      && (r.sent == w.sent <==> |w.Used()| + n <= max)
      && (r.sent != w.sent ==> r.sent == w.sent + [w.Used()] && r.Used() == [])
  {
    if w.cur.Some? && |w.cur.value| + n > max {
      FlatSnoc(w.sent, w.cur.value);
    }
  }

  function Extend(w: WState, bytes: Bytes): (r: WState)
    requires w.cur.Some?
  {
    WState(w.sent, Some(w.cur.value + bytes))
  }

  function PutPod(w: WState, max: nat, image: Bytes): (r: WState)
    requires Ready(w, max) && |image| <= max
    ensures Ready(r, max) && r.cur.Some?
  {
    Extend(Ensure(w, max, |image|), image)
  }

  /** A full buffer is replaced before the next part of a string is copied. */
  function Room(w: WState, max: nat): (r: WState)
    requires Ready(w, max) && w.cur.Some?
    ensures Ready(r, max) && r.cur.Some? && |r.cur.value| < max
  {
    if |w.cur.value| == max then Ensure(w, max, 1) else w
  }

  /** The copy loop of a string: fill the buffer, flush it only when it is full. */
  function PutText(w: WState, max: nat, text: Bytes): (r: WState)
    requires Ready(w, max) && w.cur.Some?
    ensures Ready(r, max) && r.cur.Some?
    decreases |text|
  {
    if text == [] then w else
    var e := Room(w, max);
    var n := Min(|text|, max - |e.cur.value|);
    PutText(Extend(e, text[..n]), max, text[n..])
  }

  /** One round of the copy loop. */
  lemma PutTextStep(w: WState, max: nat, text: Bytes, e: WState, part: Bytes, left: Bytes)
    requires Ready(w, max) && w.cur.Some? && text == part + left && text != []
    requires e == Room(w, max)
    requires |part| == Min(|text|, max - |e.cur.value|)
    ensures PutText(w, max, text) == PutText(Extend(e, part), max, left)
  {
    assert text[..|part|] == part && text[|part|..] == left;
  }

  lemma PutNothing(w: WState, max: nat)
    requires Ready(w, max) && w.cur.Some?
    ensures PutText(w, max, []) == w
  {
  }

  function PutString(w: WState, max: nat, text: Bytes): (r: WState)
    requires Ready(w, max) && 4 <= max
    ensures Ready(r, max)
  {
    PutText(PutPod(w, max, Int32Bytes(|text|)), max, text[..SentLength(|text|)])
  }

  function PutValue(w: WState, max: nat, s: Schema, v: Value): (r: WState)
    requires Conforms(s, v) && Ready(w, max) && PodMax(s) <= max
    ensures Ready(r, max)
    decreases v, 1
  {
    match s
    case Pod(_) => PutPod(w, max, v.image)
    case Str => PutString(w, max, v.text)
    case Vec(elem, slot) =>
      RepMeasures(elem, |v.items|);
      var e := PutPod(Ensure(w, max, slot), max, Int32Bytes(|v.items|));
      PutAll(e, max, Rep(elem, |v.items|), v.items)
    case Msg(fields) => PutAll(w, max, fields, v.members)
  }

  function PutAll(w: WState, max: nat, ss: seq<Schema>, vs: seq<Value>): (r: WState)
    requires ConformsAll(ss, vs) && Ready(w, max) && PodMaxAll(ss) <= max
    ensures Ready(r, max)
    decreases vs, 0
  {
    if vs == [] then w else
    PutAll(PutValue(w, max, ss[0], vs[0]), max, ss[1..], vs[1..])
  }

  /** What the coroutine started by `SerializeObject` yields. */
  function ObjectChunks(max: nat, s: Schema, v: Value): (chunks: seq<Bytes>)
    requires Conforms(s, v) && 0 < max && PodMax(s) <= max
  {
    var w := PutValue(START, max, s, v);
    w.sent + [w.Used()]
  }

  lemma FrontOf(data: Bytes, total: nat, n: nat)
    requires n <= total <= |data|
    ensures data[..total][..n] == data[..n] && data[n..][..total - n] == data[..total][n..]
    ensures data[..total] == data[..n] + data[..total][n..]
  {
  }

  /** The part of an input stream still to be read. */
  class InputStream {
    var data: Bytes
    var pos: nat

    ghost predicate Valid()
      reads this
    {
      pos <= |data|
    }

    ghost function Rest(): Bytes
      requires Valid()
      reads this
    {
      data[pos..]
    }

    constructor (data: Bytes)
      ensures Valid() && Rest() == data
    {
      this.data, pos := data, 0;
    }

    method Read(n: nat) returns (b: Bytes)
      requires Valid() && n <= |Rest()|
      modifies this
      ensures Valid() && b == old(Rest())[..n] && Rest() == old(Rest())[n..]
    {
      b := data[pos..pos + n];
      pos := pos + n;
    }
  }

  class Writer {
    /** `MAX_MESSAGE_BODY_LENGTH`. */
    const max: nat
    /** The buffers handed to the sink, each as it was when handed over. */
    var sent: seq<Bytes>
    var buf: array?<Byte>
    var bufLen: int
    var offset: int

    ghost predicate Valid()
      reads this, buf
    {
      && 0 < max
      && 0 <= offset <= max
      && (buf == null ==> offset == 0)
      && (buf != null ==> buf.Length == max && bufLen == max)
    }

    ghost function View(): WState
      requires Valid()
      reads this, buf
    {
      WState(sent, if buf == null then None else Some(buf[..offset]))
    }

    constructor (max: nat)
      requires 0 < max
      ensures Valid() && View() == START && this.max == max && buf == null
    {
      this.max := max;
      sent, buf, bufLen, offset := [], null, 0, 0;
    }

    method EnsureBuffer(eleSize: nat)
      requires Valid()
      modifies this, buf
      ensures Valid() && View() == Ensure(old(View()), max, eleSize)
      ensures buf != null && (buf == old(buf) || fresh(buf))
    {
      var totalLength := offset + eleSize;
      if buf != null && totalLength > bufLen {
        bufLen := offset;
        sent := sent + [buf[..bufLen]];
        buf := null;
        offset := 0;
      }
      if buf == null {
        buf := new Byte[max];
        bufLen := max;
        offset := 0;
      }
    }

    /** `std::copy_n` to the current position. */
    method Copy(bytes: Bytes)
      requires Valid() && buf != null && offset + |bytes| <= max
      modifies this`offset, buf
      ensures Valid() && View() == Extend(old(View()), bytes)
    {
      forall i | 0 <= i < |bytes| {
        buf[offset + i] := bytes[i];
      }
      offset := offset + |bytes|;
      assert buf[..offset] == old(buf[..offset]) + bytes;
    }

    method WritePod(image: Bytes)
      requires Valid() && |image| <= max
      modifies this, buf
      ensures Valid() && View() == PutPod(old(View()), max, image)
      ensures buf != null && (buf == old(buf) || fresh(buf))
    {
      EnsureBuffer(|image|);
      Copy(image);
    }

    method MakeRoom()
      requires Valid() && buf != null
      modifies this, buf
      ensures Valid() && View() == Room(old(View()), max)
      ensures buf != null && (buf == old(buf) || fresh(buf))
    {
      if offset == bufLen {
        EnsureBuffer(1);
      }
    }

    /** One round of the string copy loop; `text` is what remains to be written. */
    method CopyRound(text: Bytes) returns (writeLen: nat)
      requires Valid() && buf != null && text != []
      modifies this, buf
      ensures Valid() && buf != null && (buf == old(buf) || fresh(buf))
      ensures 0 < writeLen <= |text|
      ensures PutText(View(), max, text[writeLen..]) == PutText(old(View()), max, text)
    {
      ghost var w := View();
      MakeRoom();
      ghost var e := View();
      writeLen := Min(|text|, bufLen - offset);
      Copy(text[..writeLen]);
      PutTextStep(w, max, text, e, text[..writeLen], text[writeLen..]);
    }

    /** One round of the copy loop of `IOStream::Write`. */
    method StreamRound(totalLen: nat, stream: InputStream) returns (writeLen: nat)
      requires Valid() && buf != null && stream.Valid() && 0 < totalLen <= |stream.Rest()|
      modifies this, buf, stream
      ensures Valid() && buf != null && (buf == old(buf) || fresh(buf))
      ensures stream.Valid() && 0 < writeLen <= totalLen
      ensures stream.Rest() == old(stream.Rest())[writeLen..]
      ensures PutText(View(), max, stream.Rest()[..totalLen - writeLen])
           == PutText(old(View()), max, old(stream.Rest())[..totalLen])
    {
      ghost var w, data := View(), stream.Rest();
      ghost var text := data[..totalLen];
      MakeRoom();
      ghost var e := View();
      writeLen := Min(totalLen, bufLen - offset);
      var part := stream.Read(writeLen);
      Copy(part);
      FrontOf(data, totalLen, writeLen);
      PutTextStep(w, max, text, e, part, text[writeLen..]);
    }

    /** The copy loop of `std::string` `Write`. */
    method CopyText(text: Bytes)
      requires Valid() && buf != null
      modifies this, buf
      ensures Valid() && View() == PutText(old(View()), max, text)
      ensures buf != null && (buf == old(buf) || fresh(buf))
    {
      ghost var goal := PutText(View(), max, text);
      var rest := text;
      while |rest| > 0
        invariant Valid() && buf != null && (buf == old(buf) || fresh(buf))
        invariant PutText(View(), max, rest) == goal
        decreases |rest|
      {
        var writeLen := CopyRound(rest);
        rest := rest[writeLen..];
      }
    }

    method WriteString(text: Bytes)
      requires Valid() && 4 <= max
      modifies this, buf
      ensures Valid() && View() == PutString(old(View()), max, text)
      ensures buf != null && (buf == old(buf) || fresh(buf))
    {
      WritePod(Int32Bytes(|text|));
      var totalLen := ToInt32(|text|);
      assert Max(0, totalLen) == SentLength(|text|);
      if totalLen > 0 {
        CopyText(text[..totalLen]);
      }
    }

    /** The copy loop of `IOStream::Write`. */
    method CopyStream(totalLen: nat, stream: InputStream)
      requires Valid() && buf != null && stream.Valid() && totalLen <= |stream.Rest()|
      modifies this, buf, stream
      ensures Valid() && stream.Valid()
      ensures View() == PutText(old(View()), max, old(stream.Rest())[..totalLen])
      ensures stream.Rest() == old(stream.Rest())[totalLen..]
      ensures buf != null && (buf == old(buf) || fresh(buf))
    {
      hide PutText;
      ghost var data := stream.Rest();
      ghost var start := View();
      var left := totalLen;
      while left > 0
        invariant Valid() && buf != null && (buf == old(buf) || fresh(buf))
        invariant 0 <= left <= totalLen
        invariant stream.Valid() && stream.Rest() == data[totalLen - left..]
        invariant PutText(View(), max, stream.Rest()[..left]) == PutText(start, max, data[..totalLen])
      {
        var writeLen := StreamRound(left, stream);
        assert data[totalLen - left..][writeLen..] == data[totalLen - (left - writeLen)..];
        left := left - writeLen;
      }
      PutNothing(View(), max);
    }

    /** `IOStream::Write`: the next `size` bytes of a stream, under a length prefix. */
    method WriteStream(size: int, stream: InputStream)
      requires Valid() && 4 <= max && IsInt32(size)
      requires stream.Valid() && size <= |stream.Rest()|
      modifies this, buf, stream
      ensures Valid() && stream.Valid()
      ensures size >= 0 ==> View() == PutString(old(View()), max, old(stream.Rest())[..size])
      ensures size < 0 ==> View() == PutPod(old(View()), max, Int32Bytes(size))
      ensures stream.Rest() == old(stream.Rest())[Max(0, size)..]
      ensures buf != null && (buf == old(buf) || fresh(buf))
    {
      WritePod(Int32Bytes(size));
      if size > 0 {
        ghost var text := stream.Rest()[..size];
        assert text[..SentLength(size)] == text;
        CopyStream(size, stream);
      }
    }

    method WriteVector(elem: Schema, slot: nat, items: seq<Value>)
      requires Valid() && ConformsAll(Rep(elem, |items|), items) && Max(4, PodMax(elem)) <= max
      modifies this, buf
      ensures Valid() && View() == PutValue(old(View()), max, Vec(elem, slot), VecV(items))
      ensures buf == old(buf) || (buf != null && fresh(buf))
      decreases items, 1
    {
      EnsureBuffer(slot);
      WritePod(Int32Bytes(|items|));
      RepMeasures(elem, |items|);
      WriteAll(Rep(elem, |items|), items);
    }

    /** The field statements of a message, or the element loop of a vector. */
    method WriteAll(fields: seq<Schema>, members: seq<Value>)
      requires Valid() && ConformsAll(fields, members) && PodMaxAll(fields) <= max
      modifies this, buf
      ensures Valid() && View() == PutAll(old(View()), max, fields, members)
      ensures buf == old(buf) || (buf != null && fresh(buf))
      decreases members, 0
    {
      var i := 0;
      while i < |members|
        invariant 0 <= i <= |members| == |fields|
        invariant Valid() && (buf == old(buf) || (buf != null && fresh(buf)))
        invariant ConformsAll(fields[i..], members[i..]) && PodMaxAll(fields[i..]) <= max
        invariant PutAll(View(), max, fields[i..], members[i..]) == PutAll(old(View()), max, fields, members)
      {
        assert fields[i..][1..] == fields[i + 1..] && members[i..][1..] == members[i + 1..];
        WriteField(fields[i], members[i]);
        i := i + 1;
      }
    }

    method WriteField(s: Schema, v: Value)
      requires Valid() && Conforms(s, v) && PodMax(s) <= max
      modifies this, buf
      ensures Valid() && View() == PutValue(old(View()), max, s, v)
      ensures buf == old(buf) || (buf != null && fresh(buf))
      decreases v, 2
    {
      match s {
        case Pod(_) => WritePod(v.image);
        case Str => WriteString(v.text);
        case Vec(elem, slot) => WriteVector(elem, slot, v.items);
        case Msg(fields) => WriteAll(fields, v.members);
      }
    }
  }
}
