/**
 The stages behind `OSerializer`: an object becomes chunks, the chunks may be encrypted, and each
 chunk becomes a numbered message; `Deserialize` takes the messages apart again.  A coroutine that is
 run to completion is the list of what it yields.
 */
module OSerializer {
  import opened Bytes
  import opened Schema
  import opened ProtoWriter
  import opened Chunking
  import opened ProtoReader
  import opened RoundTrip
  import Absorbing
  import opened Truncation
  import opened DfcCrypto

  /** What the stages pass on: `BufT`, with the buffer cut to its length. */
  datatype Chunk = Chunk(body: Bytes, padNum: nat, checksum: int, isLast: bool)

  datatype OMessage = OMessage(
    bodyLength: int,
    sequenceId: int,
    messageId: int,
    messageSequenceId: int,
    serializeMethod: nat,
    compressLevel: int,
    encryptPadNum: nat,
    checksum: int,
    body: Bytes)
  {
    predicate IsLast() {
      messageSequenceId < 0
    }

    predicate IsEncrypted() {
      (serializeMethod / ENCRYPT) % 2 != 0
    }

    predicate IsCompressed() {
      (serializeMethod / COMPRESS) % 2 != 0
    }
  }

  const NONE: nat := 0
  const COMPRESS: nat := 1
  const ENCRYPT: nat := 2

  function Bodies(chunks: seq<Chunk>): (bs: seq<Bytes>)
    ensures |bs| == |chunks|
    ensures forall i :: 0 <= i < |bs| ==> bs[i] == chunks[i].body
  {
    seq(|chunks|, i requires 0 <= i < |chunks| => chunks[i].body)
  }

  /** The chunks of an unencrypted object; only the last one is flagged. */
  function Plain(bodies: seq<Bytes>): (chunks: seq<Chunk>)
    ensures |chunks| == |bodies| && Bodies(chunks) == bodies && LastFlagged(chunks)
    ensures forall i :: 0 <= i < |chunks| ==> chunks[i].padNum == 0 && chunks[i].checksum == 0
  {
    seq(|bodies|, i requires 0 <= i < |bodies| => Chunk(bodies[i], 0, 0, i == |bodies| - 1))
  }

  predicate LastFlagged(chunks: seq<Chunk>) {
    forall i :: 0 <= i < |chunks| ==> (chunks[i].isLast <==> i == |chunks| - 1)
  }

  // ----- SerializeObject -----

  method SerializeObject(max: nat, s: Schema, v: Value) returns (chunks: seq<Chunk>)
    requires WellFormed(s) && Conforms(s, v) && 0 < max && PodMax(s) <= max
    ensures chunks == Plain(ObjectChunks(max, s, v))
  {
    var writer := new Writer(max);
    writer.WriteField(s, v);
    ValueWrites(START, max, Max(PodMax(s), SlotMax(s)), s, v);
    var lastBufLen := writer.offset;
    var bodies := writer.sent + [writer.buf[..lastBufLen]];
    chunks := Plain(bodies);
  }

  // ----- EncryptBuf -----

  /** The allocation of `max` bytes behind a chunk, of which the chunk's body is the used part. */
  predicate Allocation(alloc: Bytes, body: Bytes, max: nat) {
    |alloc| == max && body <= alloc
  }

  /** A chunk encrypted; the padding is whatever the allocation holds after the body. */
  function EncryptChunk(c: BlockCipher, crc: Bytes -> int, key: Bytes, chunk: Chunk, alloc: Bytes): Chunk
    requires Lawful(c) && c.accepts(key)
    requires |chunk.body| <= |alloc| && PaddedLength(|chunk.body|) <= |alloc|
  {
    var n := PaddedLength(|chunk.body|);
    Chunk(CbcEncrypt(c, key, ZeroIv(), alloc[..n]), n - |chunk.body|, crc(chunk.body), chunk.isLast)
  }

  predicate Allocated(allocs: seq<Bytes>, chunks: seq<Chunk>, max: nat) {
    |allocs| == |chunks| && forall i :: 0 <= i < |chunks| ==> Allocation(allocs[i], chunks[i].body, max)
  }

  /** Every chunk's padded length stays within the buffer. */
  predicate PaddingFits(chunks: seq<Chunk>, max: nat) {
    forall i :: 0 <= i < |chunks| ==> PaddedLength(|chunks[i].body|) <= max
  }

  function EncryptChunks(c: BlockCipher, crc: Bytes -> int, key: Bytes, chunks: seq<Chunk>,
                         allocs: seq<Bytes>, max: nat): (r: seq<Chunk>)
    requires Lawful(c) && c.accepts(key) && Allocated(allocs, chunks, max) && PaddingFits(chunks, max)
    ensures |r| == |chunks|
  {
    seq(|chunks|, i requires 0 <= i < |chunks| => EncryptChunk(c, crc, key, chunks[i], allocs[i]))
  }

  /** One round of `EncryptBuf`; `None` is the failed assertion on a ciphertext that does not fit. */
  method EncryptOne(c: BlockCipher, crc: Bytes -> int, key: Bytes, max: nat, chunk: Chunk, alloc: Bytes)
    returns (out: Option<Chunk>)
    requires Lawful(c) && Allocation(alloc, chunk.body, max)
    ensures out.Some? <==> c.accepts(key) && PaddedLength(|chunk.body|) <= max
    ensures out.Some? ==> out.value == EncryptChunk(c, crc, key, chunk, alloc)
  {
    var raw := new Byte[max](j requires 0 <= j < max => alloc[j]);
    assert raw[..] == alloc;
    var buf := new Byte[max];
    var checksum := crc(chunk.body);
    var ok, encryptLen, padNum := AESEncrypt(c, buf, max, key, raw, |chunk.body|);
    if !ok {
      return None;
    }
    assert raw[..encryptLen] == raw[..][..encryptLen];
    out := Some(Chunk(buf[..encryptLen], padNum, checksum, chunk.isLast));
  }

  /** The checksum is that of the plain body; the last flag is passed on; the padding makes whole blocks. */
  lemma EncryptedChunks(c: BlockCipher, crc: Bytes -> int, key: Bytes, chunks: seq<Chunk>, allocs: seq<Bytes>,
                        max: nat, i: nat)
    requires Lawful(c) && c.accepts(key) && Allocated(allocs, chunks, max) && PaddingFits(chunks, max)
    requires i < |chunks|
    ensures var r := EncryptChunks(c, crc, key, chunks, allocs, max)[i];
      && r.checksum == crc(chunks[i].body) && r.isLast == chunks[i].isLast
      && 0 <= r.padNum < 16 && |r.body| == |chunks[i].body| + r.padNum && |r.body| % 16 == 0
      && r.body == CbcEncrypt(c, key, seq(16, _ => 0), allocs[i][..|r.body|])
  {
    assert seq(16, _ => 0) == ZeroIv();
    hide CbcEncrypt;
  }

  method EncryptBuf(c: BlockCipher, crc: Bytes -> int, key: Bytes, max: nat, chunks: seq<Chunk>, allocs: seq<Bytes>)
    returns (out: Option<seq<Chunk>>)
    requires Lawful(c) && Allocated(allocs, chunks, max) && chunks != []
    ensures out.Some? <==> c.accepts(key) && PaddingFits(chunks, max)
    ensures out.Some? ==> out.value == EncryptChunks(c, crc, key, chunks, allocs, max)
  {
    hide EncryptChunk, PaddedLength;
    var done: seq<Chunk> := [];
    for i := 0 to |chunks|
      invariant |done| == i
      invariant i > 0 ==> c.accepts(key)
      invariant forall j :: 0 <= j < i ==> PaddedLength(|chunks[j].body|) <= max
      invariant forall j :: 0 <= j < i ==>
        |chunks[j].body| <= |allocs[j]| == max && done[j] == EncryptChunk(c, crc, key, chunks[j], allocs[j])
    {
      assert Allocation(allocs[i], chunks[i].body, max);
      var one := EncryptOne(c, crc, key, max, chunks[i], allocs[i]);
      if one == None {
        return None;
      }
      done := done + [one.value];
    }
    out := Some(done);
  }

  // ----- MakeMessageFromBuf -----

  /** Message `i` of a run that starts when the serializer's counter is `start`. */
  function MessageOf(start: int, messageId: int, serializeMethod: nat, level: int, i: nat, chunk: Chunk): OMessage {
    OMessage(|chunk.body|, ToInt32(start + i), messageId, if chunk.isLast then -(i + 1) else i + 1,
             serializeMethod, level, chunk.padNum, chunk.checksum, chunk.body)
  }

  function Messages(start: int, messageId: int, serializeMethod: nat, level: int, chunks: seq<Chunk>)
    : (ms: seq<OMessage>)
    ensures |ms| == |chunks|
  {
    seq(|chunks|, i requires 0 <= i < |chunks| => MessageOf(start, messageId, serializeMethod, level, i, chunks[i]))
  }

  function MessageBodies(ms: seq<OMessage>): (bs: seq<Bytes>)
    ensures |bs| == |ms|
    ensures forall i :: 0 <= i < |bs| ==> bs[i] == ms[i].body
  {
    seq(|ms|, i requires 0 <= i < |ms| => ms[i].body)
  }

  function BodyLengths(ms: seq<OMessage>): int {
    if ms == [] then 0 else ms[0].bodyLength + BodyLengths(ms[1..])
  }

  lemma {:induction false} BodyLengthsAdd(ms: seq<OMessage>)
    requires forall m :: m in ms ==> m.bodyLength == |m.body|
    ensures BodyLengths(ms) == |Flat(MessageBodies(ms))|
  {
    if ms == [] {
    } else {
      assert MessageBodies(ms)[1..] == MessageBodies(ms[1..]);
      BodyLengthsAdd(ms[1..]);
    }
  }

  /** The framing of one serialization: ids 1, 2, .., -n, and the bytes are all there. */
  lemma Framing(start: int, messageId: int, serializeMethod: nat, level: int, chunks: seq<Chunk>)
    requires LastFlagged(chunks)
    ensures var ms, n := Messages(start, messageId, serializeMethod, level, chunks), |chunks|;
      && (forall i :: 0 <= i < n - 1 ==> ms[i].messageSequenceId == i + 1 && !ms[i].IsLast())
      && (n > 0 ==> ms[n - 1].messageSequenceId == -n && ms[n - 1].IsLast())
      && MessageBodies(ms) == Bodies(chunks) && BodyLengths(ms) == |Flat(Bodies(chunks))|
      && forall i :: 0 <= i < n - 1 ==> ms[i + 1].sequenceId == ToInt32(ms[i].sequenceId + 1)
  {
    hide BodyLengths, Flat, ToInt32;
    var ms := Messages(start, messageId, serializeMethod, level, chunks);
    assert MessageBodies(ms) == Bodies(chunks);
    BodyLengthsAdd(ms);
    forall i | 0 <= i < |chunks| - 1 ensures ms[i + 1].sequenceId == ToInt32(ms[i].sequenceId + 1) {
      NextId(start + i);
    }
  }

  /** The rest of a message's head: the caller's, the chunk's, and the counter's. */
  lemma Heads(start: int, messageId: int, serializeMethod: nat, level: int, chunks: seq<Chunk>)
    ensures var ms := Messages(start, messageId, serializeMethod, level, chunks);
      && (IsInt32(start) && chunks != [] ==> ms[0].sequenceId == start)
      && forall i :: 0 <= i < |chunks| ==>
        && ms[i].messageId == messageId && ms[i].serializeMethod == serializeMethod && ms[i].compressLevel == level
        && ms[i].encryptPadNum == chunks[i].padNum && ms[i].checksum == chunks[i].checksum
        && ms[i].bodyLength == |chunks[i].body| && ms[i].body == chunks[i].body
  {
  }

  /** The method's bits: 1 for compression, 2 for encryption. */
  lemma MethodBits(m: OMessage)
    ensures NONE == 0 && COMPRESS == 1 && ENCRYPT == 2
    ensures m.IsCompressed() <==> m.serializeMethod % 2 == 1
    ensures m.IsEncrypted() <==> m.serializeMethod % 4 >= 2
  {
  }

  lemma NextId(n: int)
    ensures ToInt32(ToInt32(n) + 1) == ToInt32(n + 1)
  {
    var q := (n + INT32_LIMIT) / INT32_SPAN;
    assert ToInt32(n) == n - q * INT32_SPAN;
    ToInt32Shift(n + 1, -q);
  }

  lemma ToInt32Shift(n: int, q: int)
    ensures ToInt32(n + q * INT32_SPAN) == ToInt32(n)
  {
  }

  class Serializer {
    /** The atomic counter behind every message's `sequenceId`. */
    var mMessageSequenceId: int

    constructor ()
      ensures mMessageSequenceId == 1
    {
      mMessageSequenceId := 1;
    }

    method MakeMessageFromBuf(messageId: int, serializeMethod: nat, level: int, chunks: seq<Chunk>)
      returns (ms: seq<OMessage>)
      requires IsInt32(mMessageSequenceId)
      modifies this
      ensures ms == Messages(old(mMessageSequenceId), messageId, serializeMethod, level, chunks)
      ensures mMessageSequenceId == ToInt32(old(mMessageSequenceId) + |chunks|)
    {
      var messageSequenceId := 1;
      ms := [];
      for i := 0 to |chunks|
        invariant |ms| == i && messageSequenceId == i + 1
        invariant mMessageSequenceId == ToInt32(old(mMessageSequenceId) + i)
        invariant forall j :: 0 <= j < i ==>
          ms[j] == MessageOf(old(mMessageSequenceId), messageId, serializeMethod, level, j, chunks[j])
      {
        var body := chunks[i];
        var m := OMessage(|body.body|, mMessageSequenceId, messageId,
                          if body.isLast then -messageSequenceId else messageSequenceId,
                          serializeMethod, level, body.padNum, body.checksum, body.body);
        NextId(old(mMessageSequenceId) + i);
        mMessageSequenceId := ToInt32(mMessageSequenceId + 1);
        ms := ms + [m];
        messageSequenceId := messageSequenceId + 1;
      }
    }

    /** `Serialize` without compression or encryption. */
    method Serialize(messageId: int, max: nat, s: Schema, v: Value) returns (ms: seq<OMessage>)
      requires IsInt32(mMessageSequenceId)
      requires WellFormed(s) && Conforms(s, v) && 0 < max && PodMax(s) <= max
      modifies this
      ensures ms == Messages(old(mMessageSequenceId), messageId, NONE, 0, Plain(ObjectChunks(max, s, v)))
      ensures mMessageSequenceId == ToInt32(old(mMessageSequenceId) + |ms|)
    {
      var chunks := SerializeObject(max, s, v);
      ms := MakeMessageFromBuf(messageId, NONE, 0, chunks);
    }

    /** `Serialize` with a key; the bytes after each chunk's body are arbitrary. */
    method SerializeEncrypted(messageId: int, max: nat, s: Schema, v: Value,
                              c: BlockCipher, crc: Bytes -> int, key: Bytes, allocs: seq<Bytes>)
      returns (ms: Option<seq<OMessage>>)
      requires IsInt32(mMessageSequenceId) && Lawful(c)
      requires WellFormed(s) && Conforms(s, v) && 0 < max && PodMax(s) <= max
      requires Allocated(allocs, Plain(ObjectChunks(max, s, v)), max)
      modifies this
      ensures ms.Some? <==> c.accepts(key) && PaddingFits(Plain(ObjectChunks(max, s, v)), max)
      ensures ms.Some? ==> ms.value == Messages(old(mMessageSequenceId), messageId, ENCRYPT, 0,
        EncryptChunks(c, crc, key, Plain(ObjectChunks(max, s, v)), allocs, max))
      ensures ms.Some? ==> mMessageSequenceId == ToInt32(old(mMessageSequenceId) + |ms.value|)
    {
      var chunks := SerializeObject(max, s, v);
      var encrypted := EncryptBuf(c, crc, key, max, chunks, allocs);
      if encrypted == None {
        return None;
      }
      var made := MakeMessageFromBuf(messageId, ENCRYPT, 0, encrypted.value);
      ms := Some(made);
    }
  }

  // ----- Deserialize -----

  /**
   `Deserialize` returns true with a whole object (`Accepted`) or, as nothing tells it that the last
   message is missing, with the reading coroutine still waiting (`Incomplete`); it returns false
   (`Rejected`); or that coroutine misbehaved or was pushed to after it had returned (`Undefined`).
   */
  datatype Verdict = Accepted(obj: Value) | Incomplete | Rejected | Undefined

  /** A message `Deserialize` can take apart: not compressed, and decryptable into a buffer of `max` bytes. */
  predicate Decodable(m: OMessage, c: BlockCipher, key: Bytes, max: nat) {
    && !m.IsCompressed()
    && (m.IsEncrypted() ==> c.accepts(key) && |m.body| % BLOCK == 0 && m.encryptPadNum <= |m.body| <= max)
  }

  function Decrypted(m: OMessage, c: BlockCipher, key: Bytes, max: nat): Bytes
    requires Lawful(c) && Decodable(m, c, key, max)
  {
    if m.IsEncrypted() then CbcDecrypt(c, key, ZeroIv(), m.body)[..|m.body| - m.encryptPadNum] else m.body
  }

  predicate ChecksumAgrees(m: OMessage, c: BlockCipher, crc: Bytes -> int, key: Bytes, max: nat)
    requires Lawful(c) && Decodable(m, c, key, max)
  {
    m.IsEncrypted() ==> crc(Decrypted(m, c, key, max)) == m.checksum
  }

  predicate AllDecodable(ms: seq<OMessage>, c: BlockCipher, key: Bytes, max: nat) {
    forall i :: 0 <= i < |ms| ==> Decodable(ms[i], c, key, max)
  }

  function AllDecrypted(ms: seq<OMessage>, c: BlockCipher, key: Bytes, max: nat): (bs: seq<Bytes>)
    requires Lawful(c) && AllDecodable(ms, c, key, max)
    ensures |bs| == |ms|
    ensures forall i :: 0 <= i < |bs| ==> bs[i] == Decrypted(ms[i], c, key, max)
  {
    seq(|ms|, i requires 0 <= i < |ms| => Decrypted(ms[i], c, key, max))
  }

  predicate AllAgree(ms: seq<OMessage>, c: BlockCipher, crc: Bytes -> int, key: Bytes, max: nat)
    requires Lawful(c) && AllDecodable(ms, c, key, max)
  {
    forall i :: 0 <= i < |ms| ==> ChecksumAgrees(ms[i], c, crc, key, max)
  }

  /** Written out: the checksum of every encrypted body, decrypted and without its padding, is the message's. */
  lemma AgreesExactly(ms: seq<OMessage>, c: BlockCipher, crc: Bytes -> int, key: Bytes, max: nat)
    requires Lawful(c) && AllDecodable(ms, c, key, max)
    ensures AllAgree(ms, c, crc, key, max) <==> forall i :: 0 <= i < |ms| && ms[i].serializeMethod % 4 >= 2 ==>
      crc(CbcDecrypt(c, key, seq(16, _ => 0), ms[i].body)[..|ms[i].body| - ms[i].encryptPadNum]) == ms[i].checksum
  {
    assert seq(16, _ => 0) == ZeroIv();
    hide CbcDecrypt;
    forall i | 0 <= i < |ms|
      ensures ms[i].IsEncrypted() <==> ms[i].serializeMethod % 4 >= 2
      ensures Decodable(ms[i], c, key, max)
    {
      MethodBits(ms[i]);
    }
  }

  /** A message whose checksum is changed in any way makes `Deserialize` reject the whole list. */
  lemma ChangedChecksum(ms: seq<OMessage>, i: nat, checksum: int,
                        c: BlockCipher, crc: Bytes -> int, key: Bytes, max: nat)
    requires Lawful(c) && AllDecodable(ms, c, key, max) && AllAgree(ms, c, crc, key, max)
    requires i < |ms| && ms[i].serializeMethod % 4 >= 2 && checksum != ms[i].checksum
    ensures var changed := ms[i := ms[i].(checksum := checksum)];
      AllDecodable(changed, c, key, max) && !AllAgree(changed, c, crc, key, max)
  {
    var m := ms[i].(checksum := checksum);
    var changed := ms[i := m];
    MethodBits(ms[i]);
    MethodBits(m);
    hide CbcDecrypt;
    forall j | 0 <= j < |changed| ensures Decodable(changed[j], c, key, max) {
      assert Decodable(ms[j], c, key, max);
    }
    assert ChecksumAgrees(ms[i], c, crc, key, max) && !ChecksumAgrees(changed[i], c, crc, key, max);
  }

  /** What comes of pushing the chunks into the reading coroutine. */
  function Consumed(bodies: seq<Bytes>, s: Schema, target: Value): Verdict
    requires bodies != [] && Conforms(s, target)
  {
    match ReadObject(bodies, s, target)
    case None => if Starves(RState(bodies, 0, 0), s, target) then Incomplete else Undefined
    case Some((v, q)) => if q.at == |bodies| - 1 then Accepted(v) else Undefined
  }

  /** A ciphertext decrypted into a buffer of `max` bytes. */
  method DecryptBody(cipher: Bytes, padNum: nat, c: BlockCipher, key: Bytes, max: nat) returns (plain: Bytes)
    requires Lawful(c) && c.accepts(key) && |cipher| % BLOCK == 0 && padNum <= |cipher| <= max
    ensures plain == CbcDecrypt(c, key, ZeroIv(), cipher)[..|cipher| - padNum]
  {
    var buf := new Byte[max];
    var _, n := AESDecrypt(c, buf, max, key, cipher, padNum);
    plain := buf[..n];
  }

  /** The body of one message, decrypted and checked; `None` is a checksum that does not agree. */
  method OpenMessage(m: OMessage, c: BlockCipher, crc: Bytes -> int, key: Bytes, max: nat)
    returns (body: Option<Bytes>)
    requires Lawful(c) && Decodable(m, c, key, max)
    ensures body == if ChecksumAgrees(m, c, crc, key, max) then Some(Decrypted(m, c, key, max)) else None
  {
    if !m.IsEncrypted() {
      return Some(m.body);
    }
    var plain := DecryptBody(m.body, m.encryptPadNum, c, key, max);
    var checksum := crc(plain);
    body := if checksum != m.checksum then None else Some(plain);
  }

  method Deserialize(fields: seq<Schema>, targets: seq<Value>, ms: seq<OMessage>,
                     c: BlockCipher, crc: Bytes -> int, key: Bytes, max: nat)
    returns (r: Verdict)
    requires Lawful(c) && ms != [] && AllDecodable(ms, c, key, max) && ConformsAll(fields, targets)
    ensures r == Rejected <==> !AllAgree(ms, c, crc, key, max)
    ensures r != Rejected ==> r == Consumed(AllDecrypted(ms, c, key, max), Msg(fields), MsgV(targets))
  {
    hide Decodable, Decrypted, ChecksumAgrees, Consumed;
    var bodies: seq<Bytes> := [];
    for i := 0 to |ms|
      invariant |bodies| == i
      invariant forall j :: 0 <= j < i ==> ChecksumAgrees(ms[j], c, crc, key, max)
      invariant bodies == AllDecrypted(ms, c, key, max)[..i]
    {
      var body := OpenMessage(ms[i], c, crc, key, max);
      if body == None {
        return Rejected;
      }
      bodies := bodies + [body.value];
    }
    assert AllDecrypted(ms, c, key, max)[..|ms|] == AllDecrypted(ms, c, key, max);
    r := ReadAllChunks(fields, targets, bodies);
  }

  /** The coroutine that reads the object out of the chunks pushed into it. */
  method ReadAllChunks(fields: seq<Schema>, targets: seq<Value>, bodies: seq<Bytes>) returns (r: Verdict)
    requires bodies != [] && ConformsAll(fields, targets)
    ensures r == Consumed(bodies, Msg(fields), MsgV(targets)) && r != Rejected
  {
    var reader := new Reader(bodies);
    var obj := reader.ReadMessage(fields, targets);
    r := if obj == None && reader.starved then Incomplete
         else if obj.Some? && reader.at == |bodies| - 1 then Accepted(obj.value)
         else Undefined;
  }

  // ----- whole pipelines -----

  lemma PlainMessage(start: int, messageId: int, i: nat, chunk: Chunk,
                     c: BlockCipher, crc: Bytes -> int, key: Bytes, max: nat)
    requires Lawful(c)
    ensures var m := MessageOf(start, messageId, NONE, 0, i, chunk);
      Decodable(m, c, key, max) && Decrypted(m, c, key, max) == chunk.body && ChecksumAgrees(m, c, crc, key, max)
  {
  }

  /** Serialising and deserialising without a key. */
  lemma PlainPipeline(start: int, messageId: int, max: nat, s: Schema, v: Value,
                      c: BlockCipher, crc: Bytes -> int, key: Bytes)
    requires Lawful(c) && WellFormed(s) && Conforms(s, v) && Fits(v) && 0 < max && PodMax(s) <= max
    ensures var ms := Messages(start, messageId, NONE, 0, Plain(ObjectChunks(max, s, v)));
      && AllDecodable(ms, c, key, max) && AllAgree(ms, c, crc, key, max)
      && AllDecrypted(ms, c, key, max) == ObjectChunks(max, s, v)
      && Consumed(AllDecrypted(ms, c, key, max), s, Default(s)) == Accepted(v)
  {
    var cs := ObjectChunks(max, s, v);
    var chunks := Plain(cs);
    var ms := Messages(start, messageId, NONE, 0, chunks);
    forall i | 0 <= i < |ms|
      ensures Decodable(ms[i], c, key, max) && Decrypted(ms[i], c, key, max) == cs[i]
      ensures ChecksumAgrees(ms[i], c, crc, key, max)
    {
      PlainMessage(start, messageId, i, chunks[i], c, crc, key, max);
    }
    assert AllDecrypted(ms, c, key, max) == cs;
    FreshRoundTrip(max, s, v);
  }

  lemma DecryptsBack(start: int, messageId: int, i: nat, chunk: Chunk, alloc: Bytes,
                     c: BlockCipher, crc: Bytes -> int, key: Bytes, max: nat)
    requires Lawful(c) && c.accepts(key) && Allocation(alloc, chunk.body, max)
    requires PaddedLength(|chunk.body|) <= max
    ensures var m := MessageOf(start, messageId, ENCRYPT, 0, i, EncryptChunk(c, crc, key, chunk, alloc));
      && Decodable(m, c, key, max) && 0 <= m.encryptPadNum < BLOCK
      && Decrypted(m, c, key, max) == chunk.body && ChecksumAgrees(m, c, crc, key, max)
  {
    var n := PaddedLength(|chunk.body|);
    CbcRoundTrip(c, key, ZeroIv(), alloc[..n]);
    assert alloc[..n][..|chunk.body|] == chunk.body;
  }

  /**
   Serialising and deserialising with a key, for any garbage after the chunks' bodies: if no chunk
   fails to encrypt, the same object comes back.
   */
  lemma EncryptedPipeline(start: int, messageId: int, max: nat, s: Schema, v: Value, allocs: seq<Bytes>,
                          c: BlockCipher, crc: Bytes -> int, key: Bytes)
    requires Lawful(c) && c.accepts(key) && WellFormed(s) && Conforms(s, v) && Fits(v)
    requires 0 < max && PodMax(s) <= max && PaddingFits(Plain(ObjectChunks(max, s, v)), max)
    requires Allocated(allocs, Plain(ObjectChunks(max, s, v)), max)
    ensures var ms := Messages(start, messageId, ENCRYPT, 0,
        EncryptChunks(c, crc, key, Plain(ObjectChunks(max, s, v)), allocs, max));
      && AllDecodable(ms, c, key, max) && AllAgree(ms, c, crc, key, max)
      && (forall i :: 0 <= i < |ms| ==> 0 <= ms[i].encryptPadNum < BLOCK && |ms[i].body| <= max)
      && AllDecrypted(ms, c, key, max) == ObjectChunks(max, s, v)
      && Consumed(AllDecrypted(ms, c, key, max), s, Default(s)) == Accepted(v)
  {
    var cs := ObjectChunks(max, s, v);
    var chunks := Plain(cs);
    var ms := Messages(start, messageId, ENCRYPT, 0, EncryptChunks(c, crc, key, chunks, allocs, max));
    forall i | 0 <= i < |ms|
      ensures Decodable(ms[i], c, key, max) && 0 <= ms[i].encryptPadNum < BLOCK
      ensures Decrypted(ms[i], c, key, max) == cs[i] && ChecksumAgrees(ms[i], c, crc, key, max)
    {
      DecryptsBack(start, messageId, i, chunks[i], allocs[i], c, crc, key, max);
    }
    assert AllDecrypted(ms, c, key, max) == cs;
    FreshRoundTrip(max, s, v);
  }

  /** No object there is has a chunk that fails to encrypt. */
  ghost predicate EncryptsEveryObject(max: nat)
    requires 0 < max
  {
    forall s, v :: WellFormed(s) && Conforms(s, v) && PodMax(s) <= max ==>
      PaddingFits(Plain(ObjectChunks(max, s, v)), max)
  }

  /** An object of one plain field that fills a buffer. */
  lemma FullBuffer(max: nat, image: Bytes)
    requires 0 < max == |image|
    ensures var s, v := Msg([Pod(max)]), MsgV([PodV(image)]);
      WellFormed(s) && Conforms(s, v) && PodMax(s) == max && ObjectChunks(max, s, v) == [image]
  {
    OnePod(max, PodV(image));
    var fields, members := [Pod(max)], [PodV(image)];
    var m := PutValue(START, max, fields[0], members[0]);
    assert m == WState([], Some(image)) by {
      assert [] + image == image;
    }
    assert PutAll(START, max, fields, members) == PutAll(m, max, fields[1..], members[1..]) == m;
    assert PutValue(START, max, Msg(fields), MsgV(members)) == m;
    assert [] + [image] == [image];
  }

  /** Encryption never fails on a length exactly when 16 divides the buffer size. */
  lemma EncryptsEveryObjectExactly(max: nat)
    requires 0 < max
    ensures EncryptsEveryObject(max) <==> max % BLOCK == 0
  {
    PaddingFitsExactly(max);
    if max % BLOCK == 0 {
      forall s, v | WellFormed(s) && Conforms(s, v) && PodMax(s) <= max
        ensures PaddingFits(Plain(ObjectChunks(max, s, v)), max)
      {
        ObjectChunksEncode(max, s, v, Max(PodMax(s), SlotMax(s)));
      }
    } else {
      var image := seq(max, _ => 0);
      FullBuffer(max, image);
      var s, v := Msg([Pod(max)]), MsgV([PodV(image)]);
      var chunks := Plain(ObjectChunks(max, s, v));
      assert |chunks[0].body| == max && PaddedLength(max) > max;
    }
  }

  // ----- missing messages -----

  /**
   The first `k` messages of an object, by whatever stage its chunks come back, are accepted without
   complaint: with the object if they are all there, and with only a part of it if they are not.
   */
  lemma MissingMessages(ms: seq<OMessage>, k: nat, max: nat, s: Schema, v: Value,
                        c: BlockCipher, crc: Bytes -> int, key: Bytes)
    requires Lawful(c) && WellFormed(s) && Conforms(s, v) && Fits(v) && 0 < max && PodMax(s) <= max
    requires AllDecodable(ms, c, key, max) && AllAgree(ms, c, crc, key, max) && 0 < k <= |ms|
    requires AllDecrypted(ms, c, key, max) == ObjectChunks(max, s, v)
    ensures AllDecodable(ms[..k], c, key, max) && AllAgree(ms[..k], c, crc, key, max)
    ensures Consumed(AllDecrypted(ms[..k], c, key, max), s, Default(s))
         == if k == |ms| then Accepted(v) else Incomplete
  {
    assert AllDecrypted(ms[..k], c, key, max) == ObjectChunks(max, s, v)[..k];
    TruncatedObject(max, s, v, k);
  }

  /** A message behind the last one is pushed to a coroutine that has returned. */
  lemma ExtraChunks(more: seq<Bytes>, max: nat, s: Schema, v: Value)
    requires WellFormed(s) && Conforms(s, v) && Fits(v) && 0 < max && PodMax(s) <= max && more != []
    ensures Consumed(ObjectChunks(max, s, v) + more, s, Default(s)) == Undefined
  {
    var w, cs := PutValue(START, max, s, v), ObjectChunks(max, s, v) + more;
    assert cs[..|w.sent|] == w.sent && cs[|w.sent|] == w.Used();
    ObjectChunksEncode(max, s, v, Max(PodMax(s), SlotMax(s)));
    hide PutValue, TakeValue, Absorbing.Absorb, Default;
    ValueFollows(cs, START, max, s, v, Default(s));
  }
}
