/**
 The reader that mirrors the chunking writer.  It holds one chunk and an offset and asks for the
 next chunk when it runs out.  `None` stands for a read the program does not define: pulling from a
 coroutine that has nothing more to give, copying from beyond the end of a chunk, or a negative
 length prefix.
 */
module ProtoReader {
  import opened Bytes
  import opened Schema

  /** `at` chunks have been pulled past; `offset` bytes of chunk `at` are consumed. */
  datatype RState = RState(chunks: seq<Bytes>, at: nat, offset: nat) {
    predicate InBounds() {
      at < |chunks| && offset <= |chunks[at]|
    }

    function Readable(): nat
      requires InBounds()
    {
      |chunks[at]| - offset
    }

    function Peek(n: nat): (b: Bytes)
      requires InBounds() && n <= Readable()
      ensures |b| == n
    {
      chunks[at][offset..offset + n]
    }

    function Skip(n: nat): (r: RState)
      requires InBounds() && n <= Readable()
      ensures r.InBounds()
    {
      RState(chunks, at, offset + n)
    }

    predicate CanPull() {
      at + 1 < |chunks|
    }

    function Pull(): (r: RState)
      requires InBounds() && CanPull()
      ensures r.InBounds()
    {
      RState(chunks, at + 1, 0)
    }

    /** The bytes not consumed yet. */
    function Rest(): Bytes
      requires InBounds()
    {
      chunks[at][offset..] + Flat(chunks[at + 1..])
    }
  }

  /** A position reached from `r` by reading on. */
  predicate Later(r: RState, q: RState) {
    q.InBounds() && q.chunks == r.chunks && r.at <= q.at
  }

  /** A plain object: it may straddle one chunk boundary, but not two. */
  function TakePod(r: RState, n: nat): (x: Option<(Bytes, RState)>)
    requires r.InBounds()
    ensures x.Some? ==> |x.value.0| == n && Later(r, x.value.1)
  {
    var readable := r.Readable();
    if n <= readable then Some((r.Peek(n), r.Skip(n)))
    else if !r.CanPull() || r.Pull().Readable() < n - readable then None
    else Some((r.Peek(readable) + r.Pull().Peek(n - readable), r.Pull().Skip(n - readable)))
  }

  /** The next chunk is pulled when the present one is used up. */
  function Refill(r: RState): (x: Option<RState>)
    requires r.InBounds()
    ensures x.Some? ==> Later(r, x.value)
  {
    if r.Readable() > 0 then Some(r) else if r.CanPull() then Some(r.Pull()) else None
  }

  /** The copy loop of a string of `n` bytes, over as many chunks as it takes. */
  function TakeText(r: RState, n: nat): (x: Option<(Bytes, RState)>)
    requires r.InBounds()
    ensures x.Some? ==> |x.value.0| == n && Later(r, x.value.1)
    decreases |r.chunks| - r.at, n
  {
    if n == 0 then Some(([], r)) else
    match Refill(r)
    case None => None
    case Some(p) =>
      var k := Min(n, p.Readable());
      match TakeText(p.Skip(k), n - k)
      case None => None
      case Some((text, q)) => Some((p.Peek(k) + text, q))
  }

  /** `whole` is what reading `done` first and then `rest` amounts to. */
  predicate Continues(whole: Option<(Bytes, RState)>, done: Bytes, rest: Option<(Bytes, RState)>) {
    match rest
    case None => whole == None
    case Some((text, q)) => whole == Some((done + text, q))
  }

  /** One round of the copy loop. */
  lemma TakeTextStep(r: RState, n: nat, whole: Option<(Bytes, RState)>, done: Bytes)
    requires r.InBounds() && n > 0 && Continues(whole, done, TakeText(r, n))
    ensures match Refill(r)
      case None => whole == None
      case Some(p) =>
        var k := Min(n, p.Readable());
        Continues(whole, done + p.Peek(k), TakeText(p.Skip(k), n - k))
  {
    if Refill(r).Some? {
      var p := Refill(r).value;
      var k := Min(n, p.Readable());
      var x := TakeText(p.Skip(k), n - k);
      if x.Some? {
        assert done + (p.Peek(k) + x.value.0) == done + p.Peek(k) + x.value.0;
      }
    }
  }

  lemma TextUnfolded(r: RState, n: nat)
    requires r.InBounds() && n > 0
    ensures match Refill(r)
      case None => TakeText(r, n) == None
      case Some(p) =>
        var k := Min(n, p.Readable());
        var x := TakeText(p.Skip(k), n - k);
        TakeText(r, n) == if x == None then None else Some((p.Peek(k) + x.value.0, x.value.1))
  {
  }

  lemma TakeNothing(r: RState)
    requires r.InBounds()
    ensures TakeText(r, 0) == Some(([], r))
  {
  }

  /** A length prefix, which must not be negative, and the position after it. */
  function TakeLength(r: RState): (x: Option<(nat, RState)>)
    requires r.InBounds()
    ensures x.Some? ==> Later(r, x.value.1)
  {
    match TakePod(r, 4)
    case None => None
    case Some((b, q)) => if BytesInt32(b) < 0 then None else Some((BytesInt32(b), q))
  }

  /** `std::vector::resize`: elements already there stay. */
  function Resize(elem: Schema, items: seq<Value>, n: nat): (r: seq<Value>)
    requires ConformsAll(Rep(elem, |items|), items)
    ensures ConformsAll(Rep(elem, n), r) && |r| == n
    decreases n
  {
    if n == 0 then [] else
    RepTail(elem, n);
    if items == [] then
      var rest := Resize(elem, [], n - 1);
      assert ([Default(elem)] + rest)[1..] == rest;
      [Default(elem)] + rest
    else
      RepTail(elem, |items|);
      var rest := Resize(elem, items[1..], n - 1);
      assert ([items[0]] + rest)[1..] == rest;
      [items[0]] + rest
  }

  /** Elements there already stay, and new ones are defaults. */
  lemma {:induction false} ResizedElement(elem: Schema, items: seq<Value>, n: nat, i: nat)
    requires ConformsAll(Rep(elem, |items|), items) && i < n
    ensures Resize(elem, items, n)[i] == if i < |items| then items[i] else Default(elem)
    decreases n
  {
    RepTail(elem, n);
    if i == 0 {
    } else if items == [] {
      ResizedElement(elem, [], n - 1, i - 1);
    } else {
      RepTail(elem, |items|);
      ResizedElement(elem, items[1..], n - 1, i - 1);
    }
  }

  /** Reading into an existing object `target`. */
  function TakeValue(r: RState, s: Schema, target: Value): (x: Option<(Value, RState)>)
    requires r.InBounds() && Conforms(s, target)
    ensures x.Some? ==> Conforms(s, x.value.0) && Later(r, x.value.1)
    decreases Depth(s), 0, 0
  {
    match s
    case Pod(size) =>
      (match TakePod(r, size)
       case None => None
       case Some((b, q)) => Some((PodV(b), q)))
    case Str =>
      (match TakeLength(r)
       case None => None
       case Some((n, p)) =>
         match TakeText(p, n)
         case None => None
         case Some((text, q)) => Some((StrV(target.text + text), q)))
    case Vec(elem, _) =>
      (match TakeLength(r)
       case None => None
       case Some((n, p)) =>
         RepMeasures(elem, n);
         match TakeAll(p, Rep(elem, n), Resize(elem, target.items, n))
         case None => None
         case Some((items, q)) => Some((VecV(items), q)))
    case Msg(fields) =>
      (match TakeAll(r, fields, target.members)
       case None => None
       case Some((members, q)) => Some((MsgV(members), q)))
  }

  function TakeAll(r: RState, ss: seq<Schema>, targets: seq<Value>): (x: Option<(seq<Value>, RState)>)
    requires r.InBounds() && ConformsAll(ss, targets)
    ensures x.Some? ==> ConformsAll(ss, x.value.0) && Later(r, x.value.1)
    decreases DepthAll(ss), 1, |ss|
  {
    if ss == [] then Some(([], r)) else
    match TakeValue(r, ss[0], targets[0])
    case None => None
    case Some((v, p)) =>
      match TakeAll(p, ss[1..], targets[1..])
      case None => None
      case Some((vs, q)) =>
        assert ([v] + vs)[1..] == vs;
        Some(([v] + vs, q))
  }

  // ----- waiting for more -----

  /** There is not a next chunk to pull for the rest of a plain object. */
  predicate StarvesPod(r: RState, n: nat)
    requires r.InBounds()
  {
    r.Readable() < n && !r.CanPull()
  }

  /** Reading is suspended in a pull, for want of a next chunk; any other `None` is a fault. */
  predicate Starves(r: RState, s: Schema, target: Value)
    requires r.InBounds() && Conforms(s, target)
    decreases Depth(s), 0, 0
  {
    TakeValue(r, s, target) == None &&
    match s
    case Pod(size) => StarvesPod(r, size)
    case Str => StarvesPod(r, 4) || TakeLength(r).Some?
    case Vec(elem, _) =>
      (match TakeLength(r)
       case None => StarvesPod(r, 4)
       case Some((n, p)) =>
         RepMeasures(elem, n);
         StarvesAll(p, Rep(elem, n), Resize(elem, target.items, n)))
    case Msg(fields) => StarvesAll(r, fields, target.members)
  }

  predicate StarvesAll(r: RState, ss: seq<Schema>, targets: seq<Value>)
    requires r.InBounds() && ConformsAll(ss, targets)
    decreases DepthAll(ss), 1, |ss|
  {
    ss != [] && TakeAll(r, ss, targets) == None &&
    match TakeValue(r, ss[0], targets[0])
    case None => Starves(r, ss[0], targets[0])
    case Some((_, p)) => StarvesAll(p, ss[1..], targets[1..])
  }

  /** Where an `IOStream` field puts what it reads. */
  class OutputStream {
    var data: Bytes

    constructor ()
      ensures data == []
    {
      data := [];
    }

    method Write(b: Bytes)
      modifies this
      ensures data == old(data) + b
    {
      data := data + b;
    }
  }

  class Reader {
    /** The chunks that the pull coroutine will deliver, in order. */
    const chunks: seq<Bytes>
    var at: nat
    var buf: Option<Bytes>
    var offset: nat
    /** Whether reading was suspended in a pull with nothing to follow. */
    var starved: bool

    ghost predicate Valid()
      reads this
    {
      && at < |chunks|
      && (buf == None ==> at == 0 && offset == 0)
      && (buf.Some? ==> buf.value == chunks[at] && offset <= |chunks[at]|)
    }

    ghost function View(): RState
      requires Valid()
      reads this
    {
      RState(chunks, at, offset)
    }

    constructor (chunks: seq<Bytes>)
      requires chunks != []
      ensures Valid() && View() == RState(chunks, 0, 0) && buf == None && !starved
    {
      this.chunks := chunks;
      at, buf, offset, starved := 0, None, 0, false;
    }

    method Pull()
      requires Valid() && buf.Some? && View().CanPull()
      modifies this
      ensures Valid() && buf.Some? && View() == old(View()).Pull() && starved == old(starved)
    {
      at := at + 1;
      buf := Some(chunks[at]);
      offset := 0;
    }

    method ReadPod(size: nat) returns (image: Option<Bytes>)
      requires Valid() && !starved && buf.Some?
      modifies this
      ensures Valid() && buf.Some?
      ensures match TakePod(old(View()), size)
        case None => image == None
        case Some((b, q)) => image == Some(b) && View() == q
      ensures starved <==> StarvesPod(old(View()), size)
    {
      var readableLen := |buf.value| - offset;
      if size <= readableLen {
        image := Some(buf.value[offset..offset + size]);
        offset := offset + size;
      } else {
        var head := buf.value[offset..offset + readableLen];
        if at + 1 == |chunks| {
          starved := true;
          return None;
        }
        Pull();
        var restLen := size - readableLen;
        if |buf.value| < restLen {
          return None;
        }
        image := Some(head + buf.value[..restLen]);
        offset := restLen;
      }
    }

    method ReadLength() returns (len: Option<int>)
      requires Valid() && !starved && buf.Some?
      modifies this
      ensures Valid() && buf.Some?
      ensures match TakePod(old(View()), 4)
        case None => len == None
        case Some((b, q)) => len == Some(BytesInt32(b)) && View() == q
      ensures starved <==> StarvesPod(old(View()), 4)
    {
      var image := ReadPod(4);
      len := if image.Some? then Some(BytesInt32(image.value)) else None;
    }

    /** One round of the copy loop; `len` bytes are still wanted. */
    method ReadRound(len: nat) returns (part: Option<Bytes>)
      requires Valid() && !starved && buf.Some? && len > 0
      modifies this
      ensures Valid() && buf.Some?
      ensures match Refill(old(View()))
        case None => part == None
        case Some(p) => part == Some(p.Peek(Min(len, p.Readable()))) && View() == p.Skip(Min(len, p.Readable()))
      ensures starved <==> part == None
    {
      if |buf.value| == offset {
        if at + 1 == |chunks| {
          starved := true;
          return None;
        }
        Pull();
      }
      var readable := Min(len, |buf.value| - offset);
      part := Some(buf.value[offset..offset + readable]);
      offset := offset + readable;
    }

    /** The copy loop of `std::string` `Read`. */
    method AppendText(target: Bytes, len: nat) returns (text: Option<Bytes>)
      requires Valid() && !starved && buf.Some?
      modifies this
      ensures Valid() && buf.Some?
      ensures match TakeText(old(View()), len)
        case None => text == None
        case Some((t, q)) => text == Some(target + t) && View() == q
      ensures starved <==> text == None
    {
      hide TakeText, RState.Peek;
      ghost var whole, done := TakeText(View(), len), [];
      var left: nat, v := len, target;
      assert whole.Some? ==> done + whole.value.0 == whole.value.0;
      while left > 0
        invariant Valid() && buf.Some? && !starved && v == target + done
        invariant Continues(whole, done, TakeText(View(), left))
        decreases |chunks| - at, left
      {
        TakeTextStep(View(), left, whole, done);
        var part := ReadRound(left);
        if part == None {
          return None;
        }
        done := done + part.value;
        v := v + part.value;
        left := left - |part.value|;
      }
      TakeNothing(View());
      assert done + [] == done;
      text := Some(v);
    }

    /** The copy loop of `IOStream::Read`. */
    method CopyToStream(stream: OutputStream, len: nat) returns (ok: bool)
      requires Valid() && !starved && buf.Some?
      modifies this, stream
      ensures Valid() && buf.Some?
      ensures match TakeText(old(View()), len)
        case None => !ok
        case Some((t, q)) => ok && stream.data == old(stream.data) + t && View() == q
      ensures starved <==> !ok
    {
      hide TakeText, RState.Peek;
      ghost var whole, done := TakeText(View(), len), [];
      var left: nat := len;
      assert whole.Some? ==> done + whole.value.0 == whole.value.0;
      while left > 0
        invariant Valid() && buf.Some? && !starved && stream.data == old(stream.data) + done
        invariant Continues(whole, done, TakeText(View(), left))
        decreases |chunks| - at, left
      {
        TakeTextStep(View(), left, whole, done);
        var part := ReadRound(left);
        if part == None {
          return false;
        }
        stream.Write(part.value);
        done := done + part.value;
        left := left - |part.value|;
      }
      TakeNothing(View());
      assert done + [] == done;
      ok := true;
    }

    /** `std::string` `Read`: the text is appended to what the string holds. */
    method ReadString(target: Bytes) returns (v: Option<Bytes>)
      requires Valid() && !starved && buf.Some?
      modifies this
      ensures Valid() && buf.Some?
      ensures match TakeValue(old(View()), Str, StrV(target))
        case None => v == None
        case Some((w, q)) => v == Some(w.text) && View() == q
      ensures starved <==> Starves(old(View()), Str, StrV(target))
    {
      var len := ReadLength();
      if len == None || len.value < 0 {
        return None;
      }
      v := AppendText(target, len.value);
    }

    /** `IOStream::Read`: the text is written to a stream; a negative length reads nothing. */
    method ReadStream(stream: OutputStream) returns (size: Option<int>)
      requires Valid() && !starved && buf.Some?
      modifies this, stream
      ensures Valid() && buf.Some?
      ensures match TakeValue(old(View()), Str, StrV(old(stream.data)))
        case None => size == None || size.value < 0
        case Some((w, q)) => size == Some(|w.text| - |old(stream.data)|) && stream.data == w.text && View() == q
      ensures size.Some? && size.value < 0 ==> stream.data == old(stream.data)
      ensures starved <==> Starves(old(View()), Str, StrV(old(stream.data)))
    {
      size := ReadLength();
      if size.Some? && size.value >= 0 {
        var ok := CopyToStream(stream, size.value);
        if !ok {
          size := None;
        }
      }
    }

    method ReadVector(elem: Schema, ghost slot: nat, target: seq<Value>) returns (v: Option<seq<Value>>)
      requires Valid() && !starved && buf.Some? && ConformsAll(Rep(elem, |target|), target)
      modifies this
      ensures Valid() && buf.Some?
      ensures match TakeValue(old(View()), Vec(elem, slot), VecV(target))
        case None => v == None
        case Some((w, q)) => v == Some(w.items) && View() == q
      ensures starved <==> Starves(old(View()), Vec(elem, slot), VecV(target))
      decreases Depth(elem), 2, 0
    {
      var size := ReadLength();
      if size == None || size.value < 0 {
        return None;
      }
      RepMeasures(elem, size.value);
      v := ReadAll(Rep(elem, size.value), Resize(elem, target, size.value));
    }

    /** The field statements of a message, or the element loop of a vector. */
    method ReadAll(fields: seq<Schema>, targets: seq<Value>) returns (vs: Option<seq<Value>>)
      requires Valid() && !starved && buf.Some? && ConformsAll(fields, targets)
      modifies this
      ensures Valid() && buf.Some?
      ensures match TakeAll(old(View()), fields, targets)
        case None => vs == None
        case Some((ws, q)) => vs == Some(ws) && View() == q
      ensures starved <==> StarvesAll(old(View()), fields, targets)
      decreases DepthAll(fields), 1, |fields|
    {
      if fields == [] {
        return Some([]);
      }
      var v := ReadField(fields[0], targets[0]);
      if v == None {
        return None;
      }
      var rest := ReadAll(fields[1..], targets[1..]);
      vs := if rest == None then None else Some([v.value] + rest.value);
    }

    method ReadField(s: Schema, target: Value) returns (v: Option<Value>)
      requires Valid() && !starved && buf.Some? && Conforms(s, target)
      modifies this
      ensures Valid() && buf.Some?
      ensures match TakeValue(old(View()), s, target)
        case None => v == None
        case Some((w, q)) => v == Some(w) && View() == q
      ensures starved <==> Starves(old(View()), s, target)
      decreases Depth(s), 0, 0
    {
      match s {
        case Pod(size) =>
          var image := ReadPod(size);
          v := if image == None then None else Some(PodV(image.value));
        case Str =>
          var text := ReadString(target.text);
          v := if text == None then None else Some(StrV(text.value));
        case Vec(elem, slot) =>
          var items := ReadVector(elem, slot, target.items);
          v := if items == None then None else Some(VecV(items.value));
        case Msg(fields) =>
          v := ReadMessage(fields, target.members);
      }
    }

    /** The `Read` that `PROTO_IMPLEMENTATION` generates; the first call fetches the first chunk. */
    method ReadMessage(fields: seq<Schema>, targets: seq<Value>) returns (v: Option<Value>)
      requires Valid() && !starved && ConformsAll(fields, targets)
      modifies this
      ensures Valid() && buf.Some?
      ensures match TakeValue(old(View()), Msg(fields), MsgV(targets))
        case None => v == None
        case Some((w, q)) => v == Some(w) && View() == q
      ensures starved <==> Starves(old(View()), Msg(fields), MsgV(targets))
      decreases DepthAll(fields), 2, 0
    {
      if buf == None {
        buf := Some(chunks[0]);
        offset := 0;
      }
      var members := ReadAll(fields, targets);
      v := if members == None then None else Some(MsgV(members.value));
    }
  }
}
