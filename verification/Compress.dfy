/**
 The compression stage.  The codec is a parameter that decides, call by call, how much input to take
 and what output to generate; `Streaming` is what zlib promises about such decisions.  Everything
 else, the output buffer and the switching of buffers, is modelled.
 */
module Compress {
  import opened Bytes
  import opened Schema
  import opened Encoding
  import opened DfcCrypto
  import opened Chunking
  import opened OSerializer

  /**
   `input` has been taken in, `made` is all the output generated for it, of which the first `given`
   bytes have been handed out.  `ended` is set once a finishing call has taken all its input.
   */
  datatype ZState = ZState(input: Bytes, made: Bytes, given: nat, ended: bool) {
    predicate Valid() {
      given <= |made|
    }

    function Pending(): nat
      requires Valid()
    {
      |made| - given
    }
  }

  const FRESH := ZState([], [], 0, false)

  /** One call of `deflate`: what is offered, the room for output and whether to finish. */
  datatype Call = Call(offered: Bytes, room: nat, finish: bool)

  /** How much of the offered input a call takes, and what output it generates. */
  type Codec = (ZState, Call) -> (nat, Bytes)

  /** A call's effect: generated output is handed out as far as there is room. */
  function After(d: Codec, z: ZState, call: Call): (r: ZState)
    requires z.Valid()
    ensures r.Valid()
  {
    var (taken, more) := d(z, call);
    var n := Min(taken, |call.offered|);
    var made := z.made + more;
    ZState(z.input + call.offered[..n], made, z.given + Min(call.room, |made| - z.given),
           z.ended || (call.finish && n == |call.offered|))
  }

  function Taken(d: Codec, z: ZState, call: Call): (n: nat)
    ensures n <= |call.offered|
  {
    Min(d(z, call).0, |call.offered|)
  }

  function AfterAll(d: Codec, calls: seq<Call>): (z: ZState)
    ensures z.Valid()
  {
    if calls == [] then FRESH else After(d, AfterAll(d, calls[..|calls| - 1]), calls[|calls| - 1])
  }

  lemma AfterOneMore(d: Codec, calls: seq<Call>, call: Call)
    ensures AfterAll(d, calls + [call]) == After(d, AfterAll(d, calls), call)
  {
    assert (calls + [call])[..|calls|] == calls;
  }

  /** What a call adds to the output buffer. */
  lemma HandedOut(d: Codec, z: ZState, call: Call)
    requires z.Valid()
    ensures z.given <= After(d, z, call).given
    ensures |After(d, z, call).made[z.given..After(d, z, call).given]| <= call.room
    ensures After(d, z, call).given == z.given + call.room || After(d, z, call).given == |After(d, z, call).made|
  {
  }

  /** What the codec generated, call by call. */
  function Generated(d: Codec, calls: seq<Call>): seq<Bytes> {
    if calls == [] then [] else
    var before, call := calls[..|calls| - 1], calls[|calls| - 1];
    Generated(d, before) + [d(AfterAll(d, before), call).1]
  }

  /** What it took of what it was offered, call by call. */
  function TakenIn(d: Codec, calls: seq<Call>): seq<Bytes> {
    if calls == [] then [] else
    var before, call := calls[..|calls| - 1], calls[|calls| - 1];
    TakenIn(d, before) + [call.offered[..Taken(d, AfterAll(d, before), call)]]
  }

  /** The state's output is all that was generated, and its input all that was taken in. */
  lemma {:induction false} NothingForgotten(d: Codec, calls: seq<Call>)
    ensures AfterAll(d, calls).made == Flat(Generated(d, calls))
    ensures AfterAll(d, calls).input == Flat(TakenIn(d, calls))
  {
    if calls == [] {
    } else {
      var before, call := calls[..|calls| - 1], calls[|calls| - 1];
      NothingForgotten(d, before);
      FlatSnoc(Generated(d, before), d(AfterAll(d, before), call).1);
      FlatSnoc(TakenIn(d, before), call.offered[..Taken(d, AfterAll(d, before), call)]);
    }
  }

  /**
   A call stops only for lack of input or of room; with room to spare it takes input; it does not
   raise what is pending to a whole buffer; and nothing is generated after the end.
   */
  predicate StreamsAt(d: Codec, max: nat, z: ZState, call: Call)
    requires z.Valid()
  {
    var r := After(d, z, call);
    && (Taken(d, z, call) == |call.offered| || r.given == z.given + call.room)
    && (call.offered != [] && z.Pending() < call.room ==> Taken(d, z, call) > 0)
    && (z.Pending() < max ==> r.Pending() < max)
    && (z.ended && call.offered == [] ==> r.made == z.made)
  }

  ghost predicate Streaming(d: Codec, max: nat) {
    forall z: ZState, call: Call {:trigger After(d, z, call)} ::
      z.Valid() && call.room > 0 ==> StreamsAt(d, max, z, call)
  }

  /** The codec that stores its input and stops when the output has no more room. */
  function Store(z: ZState, call: Call): (nat, Bytes) {
    var n := if z.Valid() && z.Pending() < call.room then Min(|call.offered|, call.room - z.Pending()) else 0;
    (n, call.offered[..n])
  }

  /** The promises can be kept, whatever the size of a buffer. */
  lemma StoreStreams(max: nat)
    ensures Streaming(Store, max)
  {
    forall z: ZState, call: Call | z.Valid() && call.room > 0
      ensures StreamsAt(Store, max, z, call)
    {
      var n := Taken(Store, z, call);
      assert After(Store, z, call).made == z.made + call.offered[..n];
    }
  }

  class ZLibCompressBuf {
    const codec: Codec
    var out: Bytes
    var mOutBufCapacity: nat
    var mNeedMoreMemory4Tail: bool
    ghost var calls: seq<Call>
    var strm: ZState

    ghost predicate Valid()
      reads this
    {
      strm == AfterAll(codec, calls) && |out| <= mOutBufCapacity
    }

    constructor (codec: Codec, capacity: nat)
      ensures Valid() && this.codec == codec && strm == FRESH && out == [] && mOutBufCapacity == capacity
    {
      this.codec := codec;
      out, mOutBufCapacity, mNeedMoreMemory4Tail := [], capacity, false;
      calls, strm := [], FRESH;
    }

    method Reset(capacity: nat)
      requires Valid()
      modifies this`out, this`mOutBufCapacity
      ensures Valid() && out == [] && mOutBufCapacity == capacity
    {
      out, mOutBufCapacity := [], capacity;
    }

    method Compress(input: Bytes, isLast: bool) returns (taken: nat)
      requires Valid()
      modifies this`out, this`mNeedMoreMemory4Tail, this`calls, this`strm
      ensures var call := Call(input, mOutBufCapacity - |old(out)|, isLast);
        && taken == Taken(codec, old(strm), call)
        && strm == After(codec, old(strm), call)
      ensures Valid() && out == old(out) + strm.made[old(strm).given..strm.given]
      ensures mNeedMoreMemory4Tail == (isLast && !(strm.ended && strm.Pending() == 0))
    {
      hide After, AfterAll, Taken;
      var call := Call(input, mOutBufCapacity - |out|, isLast);
      taken := Taken(codec, strm, call);
      var before := strm.given;
      AfterOneMore(codec, calls, call);
      HandedOut(codec, strm, call);
      strm := After(codec, strm, call);
      calls := calls + [call];
      out := out + strm.made[before..strm.given];
      mNeedMoreMemory4Tail := isLast && !(strm.ended && strm.Pending() == 0);
    }

    predicate IsFull()
      reads this
    {
      |out| == mOutBufCapacity
    }
  }

  /** Every chunk sent so far is a full buffer and none is flagged as the last. */
  predicate AllFull(sent: seq<Chunk>, max: nat) {
    forall i :: 0 <= i < |sent| ==> |sent[i].body| == max && !sent[i].isLast
  }

  /** The sent chunks and the buffer are exactly what the codec has handed out. */
  predicate Delivered(sent: seq<Chunk>, out: Bytes, z: ZState) {
    z.Valid() && Flat(Bodies(sent)) + out == z.made[..z.given]
  }

  lemma BodiesSnoc(sent: seq<Chunk>, c: Chunk)
    ensures Flat(Bodies(sent + [c])) == Flat(Bodies(sent)) + c.body
  {
    assert Bodies(sent + [c]) == Bodies(sent) + [c.body];
    FlatSnoc(Bodies(sent), c.body);
  }

  lemma StillDelivered(sent: seq<Chunk>, out: Bytes, z: ZState, d: Codec, call: Call)
    requires Delivered(sent, out, z)
    ensures var r := After(d, z, call); Delivered(sent, out + r.made[z.given..r.given], r)
  {
    var r := After(d, z, call);
    assert r.made[..z.given] == z.made[..z.given];
    assert r.made[..r.given] == r.made[..z.given] + r.made[z.given..r.given];
  }

  /** A buffer handed over and replaced. */
  method Switch(z: ZLibCompressBuf, sent: seq<Chunk>, max: nat, isLast: bool) returns (r: seq<Chunk>)
    requires z.Valid() && Delivered(sent, z.out, z.strm)
    modifies z`out, z`mOutBufCapacity
    ensures r == sent + [Chunk(old(z.out), 0, 0, isLast)]
    ensures z.Valid() && z.out == [] && z.mOutBufCapacity == max && Delivered(r, [], z.strm)
  {
    r := sent + [Chunk(z.out, 0, 0, isLast)];
    BodiesSnoc(sent, Chunk(z.out, 0, 0, isLast));
    assert Flat(Bodies(r)) + [] == Flat(Bodies(r));
    z.Reset(max);
  }

  /** Between calls there is room in the buffer for everything still pending, and more. */
  predicate Ongoing(z: ZLibCompressBuf, sent: seq<Chunk>, max: nat)
    reads z
  {
    && z.strm.Valid() && !z.strm.ended && z.mOutBufCapacity == max
    && Delivered(sent, z.out, z.strm) && AllFull(sent, max)
    && z.strm.Pending() + |z.out| < max
  }

  /** What the codec has handed out is sent, and exactly the final chunk is flagged. */
  predicate Closed(z: ZLibCompressBuf, sent: seq<Chunk>, max: nat)
    reads z
  {
    && z.strm.Valid() && z.strm.ended
    && sent != [] && AllFull(sent[..|sent| - 1], max)
    && sent[|sent| - 1].isLast && |sent[|sent| - 1].body| <= max
    && Flat(Bodies(sent)) == z.strm.made[..z.strm.given]
  }

  /** And the codec has handed out everything. */
  predicate Finished(z: ZLibCompressBuf, sent: seq<Chunk>, max: nat)
    reads z
  {
    Closed(z, sent, max) && Flat(Bodies(sent)) == z.strm.made
  }

  /** One empty finishing call into a fresh buffer hands out all that is pending exactly when it fits. */
  lemma TailFits(d: Codec, z: ZState, max: nat)
    requires Streaming(d, max) && z.Valid() && z.ended && 0 < max
    ensures var r := After(d, z, Call([], max, true));
      r.ended && r.made == z.made && r.input == z.input && (r.Pending() == 0 <==> z.Pending() <= max)
  {
    var call := Call([], max, true);
    assert StreamsAt(d, max, z, call) by {
      var _ := After(d, z, call);
    }
    assert call.offered[..0] == [] && z.input + [] == z.input;
  }

  /** The tail that did not fit goes to a new buffer, as far as that can hold it. */
  method FlushTail(z: ZLibCompressBuf, sent: seq<Chunk>, max: nat) returns (r: seq<Chunk>)
    requires Streaming(z.codec, max) && z.Valid() && z.mOutBufCapacity == max > 0 && z.strm.ended
    requires Delivered(sent, z.out, z.strm) && AllFull(sent, max) && z.IsFull()
    modifies z
    ensures z.Valid() && z.mOutBufCapacity == max && z.strm.ended && z.strm.input == old(z.strm).input
    ensures Delivered(r, z.out, z.strm) && AllFull(r, max)
    ensures z.strm.Pending() == 0 <==> old(z.strm.Pending()) <= max
  {
    hide After, Streaming;
    r := Switch(z, sent, max, false);
    StillDelivered(r, z.out, z.strm, z.codec, Call([], max, true));
    TailFits(z.codec, z.strm, max);
    var _ := z.Compress([], true);
  }

  /** The final chunk is handed over. */
  method SendLast(z: ZLibCompressBuf, sent: seq<Chunk>, max: nat) returns (r: seq<Chunk>)
    requires z.Valid() && z.mOutBufCapacity == max && z.strm.ended
    requires Delivered(sent, z.out, z.strm) && AllFull(sent, max)
    ensures Closed(z, r, max)
  {
    r := sent + [Chunk(z.out, 0, 0, true)];
    BodiesSnoc(sent, Chunk(z.out, 0, 0, true));
    assert r[..|r| - 1] == sent;
  }

  lemma AllHandedOut(z: ZLibCompressBuf, sent: seq<Chunk>, max: nat)
    requires Closed(z, sent, max)
    ensures Finished(z, sent, max) <==> z.strm.Pending() == 0
  {
    if z.strm.Pending() == 0 {
      assert z.strm.made[..z.strm.given] == z.strm.made;
    } else {
      assert |z.strm.made[..z.strm.given]| < |z.strm.made|;
    }
  }

  /** The end of the stream: nothing is lost exactly when what is pending fits one more buffer. */
  method Finish(z: ZLibCompressBuf, sent: seq<Chunk>, max: nat) returns (r: seq<Chunk>)
    requires Streaming(z.codec, max) && z.Valid() && z.mOutBufCapacity == max > 0 && z.strm.ended
    requires Delivered(sent, z.out, z.strm) && AllFull(sent, max)
    requires z.mNeedMoreMemory4Tail == (z.strm.Pending() != 0)
    requires z.strm.Pending() != 0 ==> z.IsFull()
    modifies z
    ensures z.Valid() && Closed(z, r, max) && z.strm.input == old(z.strm).input
    ensures Finished(z, r, max) <==> old(z.strm.Pending()) <= max
  {
    hide Closed, Finished;
    r := sent;
    if z.mNeedMoreMemory4Tail {
      r := FlushTail(z, r, max);
    }
    r := SendLast(z, r, max);
    AllHandedOut(z, r, max);
  }

  /** One round of the inner loop. */
  method Round(z: ZLibCompressBuf, sent: seq<Chunk>, max: nat, inBuf: Bytes, isLast: bool)
    returns (r: seq<Chunk>, taken: nat)
    requires Streaming(z.codec, max) && z.Valid() && Ongoing(z, sent, max) && inBuf != []
    modifies z
    ensures z.Valid() && 0 < taken <= |inBuf|
    ensures z.strm.input == old(z.strm).input + inBuf[..taken]
    ensures if isLast && taken == |inBuf| then Finished(z, r, max) else Ongoing(z, r, max)
  {
    r := sent;
    StillDelivered(r, z.out, z.strm, z.codec, Call(inBuf, max - |z.out|, isLast));
    taken := z.Compress(inBuf, isLast);
    if (!isLast || taken < |inBuf|) && z.IsFull() {
      r := Switch(z, r, max, false);
    } else if isLast && taken == |inBuf| {
      r := Finish(z, r, max);
    }
  }

  /** The inner loop: all the input of one chunk. */
  method CompressChunk(z: ZLibCompressBuf, sent: seq<Chunk>, max: nat, chunk: Chunk) returns (r: seq<Chunk>)
    requires Streaming(z.codec, max) && z.Valid() && Ongoing(z, sent, max)
    modifies z
    ensures z.Valid() && z.strm.input == old(z.strm).input + chunk.body
    ensures if chunk.isLast && chunk.body != [] then Finished(z, r, max) else Ongoing(z, r, max)
  {
    hide Finished, Ongoing;
    r := sent;
    var inBuf := chunk.body;
    while |inBuf| > 0
      invariant z.Valid()
      invariant if chunk.isLast && inBuf == [] && chunk.body != [] then Finished(z, r, max) else Ongoing(z, r, max)
      invariant z.strm.input + inBuf == old(z.strm).input + chunk.body
      decreases |inBuf|
    {
      var taken;
      r, taken := Round(z, r, max, inBuf, chunk.isLast);
      assert inBuf == inBuf[..taken] + inBuf[taken..];
      inBuf := inBuf[taken..];
    }
    assert z.strm.input + [] == z.strm.input;
  }

  lemma AllButLast(r: seq<Chunk>, max: nat)
    requires r != [] && AllFull(r[..|r| - 1], max) && r[|r| - 1].isLast
    ensures LastFlagged(r) && forall i :: 0 <= i < |r| - 1 ==> |r[i].body| == max
  {
    forall i | 0 <= i < |r| - 1 ensures |r[i].body| == max && !r[i].isLast {
      assert r[i] == r[..|r| - 1][i];
    }
  }

  lemma NothingSent(z: ZLibCompressBuf, max: nat)
    requires z.strm == FRESH && z.out == [] && z.mOutBufCapacity == max > 0
    ensures Ongoing(z, [], max)
  {
    assert Flat(Bodies([])) + z.out == [];
  }

  /**
   `CompressBuf`: the chunks sent on are the codec's complete output for the whole input, all but
   the last exactly `max` bytes long, and only the last flagged, exactly when the last chunk that
   comes in is not empty.  Otherwise the end of the stream is never written.
   */
  method CompressBuf(codec: Codec, max: nat, chunks: seq<Chunk>) returns (r: seq<Chunk>, z: ZLibCompressBuf)
    requires 0 < max && Streaming(codec, max) && chunks != [] && LastFlagged(chunks)
    ensures fresh(z) && z.codec == codec && z.Valid() && z.strm.input == Flat(Bodies(chunks))
    ensures if chunks[|chunks| - 1].body == [] then Ongoing(z, r, max) else Finished(z, r, max)
  {
    hide Finished, Ongoing;
    z := new ZLibCompressBuf(codec, max);
    r := [];
    ghost var bodies := Bodies(chunks);
    NothingSent(z, max);
    assert bodies[..0] == [];
    for i := 0 to |chunks|
      invariant fresh(z) && z.codec == codec && z.Valid()
      invariant if i == |chunks| && chunks[i - 1].body != [] then Finished(z, r, max) else Ongoing(z, r, max)
      invariant z.strm.input == Flat(bodies[..i])
    {
      r := CompressChunk(z, r, max, chunks[i]);
      FlatSnoc(bodies[..i], chunks[i].body);
      assert bodies[..i + 1] == bodies[..i] + [chunks[i].body];
    }
    assert bodies[..|chunks|] == bodies;
  }

  /**
   An object serialised and compressed: its chunks are never empty, so the stream is always ended,
   and it is the codec's complete output for the object's flat encoding.
   */
  method CompressObject(codec: Codec, max: nat, s: Schema, v: Value) returns (r: seq<Chunk>, z: ZLibCompressBuf)
    requires Streaming(codec, max) && WellFormed(s) && Conforms(s, v) && 0 < max && PodMax(s) <= max
    ensures fresh(z) && z.codec == codec && z.Valid()
    ensures Finished(z, r, max) && z.strm.input == Encode(v)
  {
    hide Finished, Ongoing;
    ObjectChunksEncode(max, s, v, Max(PodMax(s), SlotMax(s)));
    var chunks := SerializeObject(max, s, v);
    r, z := CompressBuf(codec, max, chunks);
  }

  /** `Serialize` with a compression level: the messages carry those chunks, numbered as any others. */
  method SerializeCompressed(serializer: Serializer, messageId: int, level: int,
                             codec: Codec, max: nat, s: Schema, v: Value)
    returns (ms: seq<OMessage>, chunks: seq<Chunk>, z: ZLibCompressBuf)
    requires Streaming(codec, max) && WellFormed(s) && Conforms(s, v) && 0 < max && PodMax(s) <= max
    requires IsInt32(serializer.mMessageSequenceId)
    modifies serializer
    ensures fresh(z) && z.codec == codec && z.Valid() && Finished(z, chunks, max) && z.strm.input == Encode(v)
    ensures ms == Messages(old(serializer.mMessageSequenceId), messageId, COMPRESS, level, chunks)
    ensures serializer.mMessageSequenceId == ToInt32(old(serializer.mMessageSequenceId) + |chunks|)
  {
    chunks, z := CompressObject(codec, max, s, v);
    ms := serializer.MakeMessageFromBuf(messageId, COMPRESS, level, chunks);
  }

  /** A full buffer can be encrypted only if 16 divides its size, and so can any last chunk then. */
  lemma CompressedPaddingFits(z: ZLibCompressBuf, r: seq<Chunk>, max: nat)
    requires Finished(z, r, max)
    ensures PaddingFits(r, max) <==>
      PaddedLength(|r[|r| - 1].body|) <= max && (|r| > 1 ==> max % BLOCK == 0)
  {
    AllButLast(r, max);
    if |r| > 1 {
      assert PaddedLength(max) <= max <==> max % BLOCK == 0;
      assert |r[0].body| == max;
    }
  }

  /** The allocations behind a list of chunks, each filled up with bytes of `spare`. */
  function Allocations(chunks: seq<Chunk>, spare: nat -> Bytes, max: nat): (allocs: seq<Bytes>)
    requires forall i :: 0 <= i < |chunks| ==> |chunks[i].body| <= max && |spare(i)| == max
    ensures Allocated(allocs, chunks, max)
  {
    seq(|chunks|, i requires 0 <= i < |chunks| => chunks[i].body + spare(i)[|chunks[i].body|..])
  }

  /**
   `Serialize` with a compression level and a key: the compressed chunks, encrypted, whatever lies
   behind them in their buffers, or a failure exactly when the key is not accepted or some chunk's
   padded length does not fit.
   */
  method SerializeCompressedEncrypted(serializer: Serializer, messageId: int, level: int,
                                      codec: Codec, max: nat, s: Schema, v: Value,
                                      c: BlockCipher, crc: Bytes -> int, key: Bytes, spare: nat -> Bytes)
    returns (ms: Option<seq<OMessage>>, chunks: seq<Chunk>, z: ZLibCompressBuf)
    requires Streaming(codec, max) && WellFormed(s) && Conforms(s, v) && 0 < max && PodMax(s) <= max
    requires IsInt32(serializer.mMessageSequenceId) && Lawful(c) && forall i :: |spare(i)| == max
    modifies serializer
    ensures fresh(z) && z.codec == codec && z.Valid() && Finished(z, chunks, max) && z.strm.input == Encode(v)
    ensures forall i :: 0 <= i < |chunks| ==> |chunks[i].body| <= max
    ensures ms.Some? <==> c.accepts(key) && PaddingFits(chunks, max)
    ensures ms.Some? ==> ms.value == Messages(old(serializer.mMessageSequenceId), messageId, COMPRESS + ENCRYPT, level,
      EncryptChunks(c, crc, key, chunks, Allocations(chunks, spare, max), max))
    ensures ms.Some? ==> serializer.mMessageSequenceId == ToInt32(old(serializer.mMessageSequenceId) + |chunks|)
  {
    hide Finished;
    chunks, z := CompressObject(codec, max, s, v);
    CompressedChunks(z, chunks, max);
    var encrypted := EncryptBuf(c, crc, key, max, chunks, Allocations(chunks, spare, max));
    if encrypted == None {
      ms := None;
    } else {
      var made := serializer.MakeMessageFromBuf(messageId, COMPRESS + ENCRYPT, level, encrypted.value);
      ms := Some(made);
    }
  }

  /** What `CompressBuf` sends on is properly flagged in the one case and never ends in the other. */
  lemma CompressedChunks(z: ZLibCompressBuf, r: seq<Chunk>, max: nat)
    ensures Finished(z, r, max) ==>
      && LastFlagged(r) && r != []
      && (forall i :: 0 <= i < |r| - 1 ==> |r[i].body| == max) && |r[|r| - 1].body| <= max
    ensures Ongoing(z, r, max) ==> !(r != [] && LastFlagged(r)) && !z.strm.ended
  {
    if Finished(z, r, max) {
      AllButLast(r, max);
    }
    if Ongoing(z, r, max) && r != [] {
      assert !r[|r| - 1].isLast;
    }
  }
}
