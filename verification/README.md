# A verified model of a remote-operations program's core algorithms

The repository is a C++ code base for operating machines remotely: clients and servers exchange
serialised messages, and file operations are run on request.  This project models its algorithmic
core in Dafny and proves what that core is for:

* the **chunked object serializer** (`OProtoBase`, `IOStream`, `OSerializer`, the buffer overloads of
  `DfcCrypto`): a recursive writer fills buffers of `MAX_MESSAGE_BODY_LENGTH` bytes, a reader pulls
  them back on demand, and optional compression and encryption stages sit between the two;
* **MD5** as `Md5.cpp` computes it, on 64-bit words;
* the **single-producer single-consumer ring buffer** `SPSCArray`;
* **grep with context** (`OPCBasic::GrepFile`);
* **text rewriting** (`FileHandler.cpp`): the in-place replacement loop and the wildcard compiler.

## How it is laid out

| file | what it holds |
|---|---|
| `Bytes.dfy`, `Schema.dfy`, `Encoding.dfy` | bytes and 32-bit integers; types and values; the flat encoding and its decoder, with chunking forgotten |
| `ProtoWriter.dfy`, `BufferLayout.dfy`, `Chunking.dfy` | the writer as a class over an array buffer; exactly where it puts things; what every run of it guarantees about its chunks |
| `ProtoReader.dfy`, `Absorbing.dfy`, `RoundTrip.dfy` | the reader as a class over a chunk list and a cursor; what an object read into becomes; writer and reader together |
| `Straddling.dfy`, `Truncation.dfy` | exactly which chunkings can be read; what a reader makes of the first few chunks only |
| `DfcCrypto.dfy`, `OSerializer.dfy`, `Compress.dfy` | CBC and padding; framing, encryption and `Deserialize`; the compression stage |
| `Md5Program.dfy`, `Md5Words.dfy`, `Md5Tables.dfy`, `Md5Rfc.dfy`, `Md5Standard.dfy`, `Md5Stream.dfy`, `Md5.dfy` | the block program over any words; words of 64 and 32 bits; the 64 lines and constants; the transform; the standard written out; the streaming context; digests |
| `SPSCArray.dfy` | the ring buffer as a class, and its interleaved steps as a state machine |
| `GrepFile.dfy` | the window rule and the loop |
| `FileHandler.dfy`, `Wildcard.dfy` | replacement; wildcard compilation |

Code that changes things step by step is a method (with a class where the source has an object), and
each is proved equal to a function of its inputs and its old state.  The theorems are lemmas about
those functions, so they hold of the methods.

Conventions.  A type is a tree of plain objects (by size), strings, vectors (with the `sizeof` of
the element, which the writer reserves) and messages; a plain object's value is its bytes in memory.
A coroutine is its chunk list: the writer's `sent` buffers, the reader's list and cursor.  `None` on
the reading side is behaviour the program leaves undefined: a read past the end of a chunk, a pull
from a finished coroutine, or a negative length prefix.  Clocks, sockets and files are not modelled;
the block cipher, the checksum, the deflate codec, the regular expression engine and the bytes that
lie behind a chunk in its allocation are parameters.

Where the code falls short of what one might expect of it, the code is kept and the exact condition
is proved: reading appends to strings (`ReusedRoundTrip`), lengths of 2^31 and more do not survive
(`FreshRoundTrip`), bytes cut up anew can be read if and only if no chunk lies inside a plain object
and ends before it does (`ChunkingIsReadExactly`, with `RoomIsNeeded` for inputs that fail), a message
list without its end is accepted all the same (`MissingMessages`), encryption needs a buffer size
divisible by 16 (`EncryptsEveryObjectExactly`), a compressed stream whose last input chunk is empty is
never ended (`CompressBuf`), its tail is complete only if it fits one more buffer (`Finish`), MD5's
bit counter goes wrong with pieces it overcounts (`CounterIsExact`, `TotalsAreExact`), replacing the
empty string never ends (`LoopEndsExactly`), braces in a wildcard pattern come to bound what is before
them (`MeaningIsKeptExactly`, with `BracesBound` for an input), and runs of the ring buffer stay within
its bounds exactly up to 2^31 - 1 pushes (`BoundedExactly`, with `AnyNumberOfPushes` for the runs).

`MD5` is documented as RFC 1321; section numbers below are those of RFC 1321.

## Model

| member | source | states |
|---|---|---|
| Bytes.Int32RoundTrip | common/OProtoBase.h:64-84 | the four bytes of a length prefix read back as the same `int32_t`, wrap-around included |
| Bytes.BytesRoundTrip | common/OProtoBase.h:74-84 | any four bytes are the image of the `int32_t` they hold |
| Bytes.LowOrderFirst | common/crypto/Md5.cpp:19-25 | the four bytes of an integer are its base-256 digits, the low-order one first, whatever its sign |
| Bytes.Int32BytesExactly | common/crypto/Md5.cpp:19-25 | four little-endian bytes agree exactly for numbers congruent modulo 2^32 |
| Encoding.DecodeEncode | common/OProtoBase.h:190-206 | for every type and value whose lengths fit, decoding undoes encoding, whatever bytes follow |
| Encoding.EncodeDecode | common/OProtoBase.h:190-206 | whatever bytes decode to a value, they are that value's encoding and what follows: encodings are unique |
| Encoding.EncodingIsFaithful | common/OProtoBase.cpp:41-42 | exactly the values whose string and vector lengths are below 2^31 survive the encoding |
| Encoding.WireFormat | common/OProtoBase.h:64-132 | a plain object is its memory image, a string or vector four count bytes, low-order first, and then the text or its elements, a message its fields one after the other |
| ProtoWriter.EnsureMakesRoom | common/OProtoBase.cpp:10-25 | the buffer is sent, whole, exactly when it lacks room; no byte is lost; afterwards there is room |
| ProtoWriter.Writer.EnsureBuffer | common/OProtoBase.cpp:5-34 | the class flushes, allocates and resets the offset as `Ensure` says; the buffer is the old one or a new one |
| ProtoWriter.Writer.WritePod | common/OProtoBase.h:64-72 | a plain object is appended after at most one flush |
| ProtoWriter.Writer.CopyRound | common/OProtoBase.cpp:44-56 | one round of the string loop makes progress and leaves the final state unchanged |
| ProtoWriter.Writer.WriteString | common/OProtoBase.cpp:36-59 | length prefix, then the text spread over as many buffers as it takes |
| ProtoWriter.Writer.WriteStream | opp/IOStream.cpp:3-23 | a stream field leaves the writer in the very state a string `Write` of the next `size` bytes would, and advances the stream by `size`; a negative size writes only the prefix |
| ProtoWriter.Writer.WriteVector | common/OProtoBase.h:120-132 | the writer's state after a vector is the specified one, which `BufferLayout.VectorReserves` pins down |
| ProtoWriter.Writer.WriteAll | common/OProtoBase.h:190-195 | the fields of a message are written in order |
| ProtoWriter.Writer.WriteField | common/OProtoBase.h:161-168 | the object writer equals the recursive specification for every type tree |
| BufferLayout.ValuePacks | common/OProtoBase.cpp:5-59 | every chunk boundary of an object: the writer places the object's atoms greedily, each with the room asked for it, a text byte by byte |
| BufferLayout.VectorReserves | common/OProtoBase.h:125-126 | behind b bytes, a vector whose elements have `sizeof` slot sends the buffer as it is exactly when b + slot or b + 4 exceed its size, and its prefix then starts the next one; otherwise the prefix comes right behind |
| BufferLayout.PodReserves | common/OProtoBase.h:69-71 | a plain object sends the buffer exactly when it does not fit behind what is there |
| BufferLayout.StringFills | common/OProtoBase.cpp:41-56 | a string asks for room for its prefix only, and every buffer its text sends is full to the last byte |
| BufferLayout.EmptyVectorFlushes | common/OProtoBase.h:125 | an empty vector of 8-byte elements behind 10 bytes, in buffers of 16: two chunks, of 10 and 4 bytes |
| Chunking.ValueWrites | common/OProtoBase.h:43-132 | from any state of the writer: the stream grows by exactly the value's encoding, nothing sent changes, every chunk sent on the way is non-empty, within `max`, and less than `span` short of it |
| Chunking.ObjectChunksEncode | common/OSerializer.cpp:12-18 | an object's chunks concatenate to its flat encoding whatever the buffer size and the element sizes; each has 1 to `max` bytes; all but the last exceed `max - span` |
| Chunking.ChunkCountBound | common/OProtoBase.cpp:10-17 | an object of `total` bytes takes at most 1 + total / (max - span + 1) chunks |
| Chunking.NoPodIsSplit | common/OProtoBase.h:64-72 | no chunk boundary made while writing a value falls inside one of its plain objects or length prefixes |
| Chunking.ObjectPodsAreWhole | common/OSerializer.cpp:12-18 | the same seen from outside, for every boundary of an object's chunk list |
| ProtoReader.Reader.ReadPod | common/OProtoBase.h:74-98 | a plain object is read across at most one boundary; when that is not enough it is told whether reading waits in a pull or copies from beyond a chunk |
| ProtoReader.Reader.AppendText | common/OProtoBase.cpp:66-86 | the copy loop appends the text to what the string held, over any number of chunks |
| ProtoReader.Reader.ReadString | common/OProtoBase.cpp:61-86 | string `Read` is the reading specification, negative lengths included |
| ProtoReader.Reader.ReadStream | opp/IOStream.cpp:25-47 | a stream field writes out exactly the bytes a string `Read` would have appended, and a negative length writes nothing |
| ProtoReader.Reader.ReadVector | common/OProtoBase.h:134-149 | resize, then read each element into its place |
| ProtoReader.Reader.ReadMessage | common/OProtoBase.h:196-206 | the first `Read` fetches the first chunk; the fields follow in order |
| ProtoReader.ResizedElement | common/OProtoBase.h:142 | a resized vector keeps the elements that were there, and new ones are defaults |
| Absorbing.AbsorbsExactlyIntoBlank | common/OProtoBase.cpp:80 | reading into an object gives the written value exactly when the object was blank: its strings, where they are kept, were empty |
| Absorbing.AbsorbsByParts | common/OProtoBase.cpp:80 | reading replaces a plain object, puts text behind the text there was, and resizes a vector |
| Absorbing.AbsorbsAllByPlace | common/OProtoBase.h:143-146 | each element or field is read into the one in its place |
| Absorbing.DefaultIsBlank | common/OProtoBase.h:142 | a fresh object is blank for every value |
| RoundTrip.ValueFollows | common/OProtoBase.h:40-150 | the reader started at the writer's start position ends, on any chunk list that continues the writer's run, at the writer's end position, with the value read |
| RoundTrip.WrittenIsRead | common/OSerializer.cpp:12-18 | for every type, value, buffer size and target: the reader absorbs the value, pulls one time less than there are chunks and ends at the last chunk's end |
| RoundTrip.FreshRoundTrip | common/OProtoBase.h:190-206 | reading the written chunks into a fresh object gives the value back, at the end of the last chunk, exactly when all lengths are below 2^31 |
| RoundTrip.ReusedRoundTrip | common/OProtoBase.cpp:61-86 | reading into a used object gives the value back exactly when that object was blank |
| RoundTrip.ReaderIsDecoder | common/OProtoBase.h:74-98 | on any bytes, well formed or not, chunked in any way whose non-final chunks hold the largest plain object, the reader does what the flat decoder does, failure included |
| RoundTrip.ChunkingDoesNotMatter | common/OProtoBase.cpp:61-86 | two roomy chunkings of the same bytes read alike |
| RoundTrip.RechunkedIsRead | common/OProtoBase.h:74-98 | the writer's bytes cut up anew give the value, and with a non-empty final chunk the reader ends at its end |
| RoundTrip.RoomIsNeeded | common/OProtoBase.h:86-97 | failing inputs: for every size, chunks one byte short of the largest plain object that cannot be read |
| Straddling.PodTakenExactly | common/OProtoBase.h:74-98 | from any cursor that has begun its chunk, a plain object is read exactly when its bytes are there and no chunk after the first begins in it and ends before it does |
| Straddling.ReaderExactly | common/OProtoBase.h:40-150 | on any bytes and any chunking, for every type and target: the reader has what the flat decoder decodes, unless a chunk lies inside one of the decoded plain objects and ends before it, and then it has nothing |
| Straddling.ChunkingIsReadExactly | common/OProtoBase.cpp:61-86 | the bytes of a value, cut up in any way, are read if and only if no chunk is in the way of one of its plain objects or prefixes |
| Straddling.RoomyIsInTheClear | common/OProtoBase.h:86-97 | chunks that hold the largest plain object, the last excepted, are never in the way |
| Straddling.StarvingIsShort | common/OProtoBase.h:86-97 | a reader that waits for more has not been given the bytes of any value |
| Straddling.EngulfedIsFault | common/OProtoBase.h:86-97 | so where all bytes are there and reading fails, it copies from beyond a chunk |
| Straddling.NegativeLengthIsFault | common/OProtoBase.cpp:66-68 | a negative length whose bytes are there ends in a fault and not in waiting |
| Truncation.TruncatedObject | common/OSerializer.cpp:223-227 | given only the first chunks of an object, the reader never faults: it waits for more, unless they were all |
| DfcCrypto.XorTwice | common/crypto/DfcCrypto.cpp:70 | the chaining's exclusive or is its own inverse |
| DfcCrypto.XorBits | common/crypto/DfcCrypto.cpp:70 | the exclusive or of two blocks is that of their bits |
| DfcCrypto.ZeroIvIsZero | common/crypto/DfcCrypto.cpp:66 | the vector is sixteen zero bytes |
| DfcCrypto.CbcBlocks | common/crypto/DfcCrypto.cpp:66-70 | every block of the ciphertext is the cipher of the plain block mixed with the block of ciphertext before it, the first with the vector (section 6.2 of NIST SP 800-38A) |
| DfcCrypto.CbcBlocksBack | common/crypto/DfcCrypto.cpp:109 | every block of the decrypted text is the deciphered block mixed in the same way |
| DfcCrypto.CbcRoundTrip | common/crypto/DfcCrypto.cpp:66-70 | chaining over any lawful block cipher inverts on every whole number of blocks, from any initialization vector |
| DfcCrypto.PaddingFitsExactly | common/crypto/DfcCrypto.cpp:55-67 | a buffer takes the padded ciphertext of everything it could hold exactly when 16 divides its size |
| DfcCrypto.AESEncrypt | common/crypto/DfcCrypto.cpp:47-72 | succeeds exactly for an accepted key and enough room; ciphertext, length and pad number; nothing behind the ciphertext changes |
| DfcCrypto.AESDecrypt | common/crypto/DfcCrypto.cpp:94-113 | succeeds exactly for an accepted key and enough room for the unpadded length; the plaintext without its padding |
| OSerializer.SerializeObject | common/OSerializer.cpp:12-18 | the chunks of the specification, the last and only the last flagged |
| OSerializer.EncryptBuf | common/OSerializer.cpp:126-147 | every chunk encrypted, with its padding and checksum, exactly when the key is accepted and every padded length fits |
| OSerializer.EncryptedChunks | common/OSerializer.cpp:139-145 | an encrypted chunk carries the checksum of the plain body, its last flag, a pad number of 0 to 15 and whole blocks encrypted from a zero vector |
| OSerializer.BodyLengthsAdd | common/OSerializer.cpp:163 | the body lengths add up to the bytes sent |
| OSerializer.Framing | common/OSerializer.cpp:149-180 | message sequence ids are 1, 2, .., -n; only the final message is last; bodies and lengths are the stage's output; sequence ids are consecutive |
| OSerializer.Heads | common/OSerializer.cpp:162-175 | every message has the caller's id, method and level, its chunk's pad number, checksum, body and length, and the first the counter's value |
| OSerializer.MethodBits | common/OMessage.h:57-58 | method 1 is compression and 2 encryption, and a message is read by those bits |
| OSerializer.Serializer.MakeMessageFromBuf | common/OSerializer.cpp:149-180 | the messages of the specification, and the counter left where the next serialization takes it up, modulo 2^32 |
| OSerializer.Serializer.Serialize | common/OSerializer.cpp:20-27 | the plain messages of an object |
| OSerializer.Serializer.SerializeEncrypted | common/OSerializer.cpp:44-57 | the encrypted messages of an object, or a failure exactly when the key or a length is not accepted |
| OSerializer.OpenMessage | common/OSerializer.cpp:232-247 | a body decrypted into a fresh buffer, rejected exactly on a checksum mismatch |
| OSerializer.Deserialize | common/OSerializer.cpp:220-270 | rejects exactly when some checksum disagrees, and otherwise ends as the reading coroutine does on the bodies: a whole object, one still waiting, or a fault |
| OSerializer.AgreesExactly | common/OSerializer.cpp:237-247 | checksums agree exactly when that of each encrypted body, decrypted and cut by its pad number, is the one in its message |
| OSerializer.ChangedChecksum | common/OSerializer.cpp:243-246 | a list of messages that is accepted is rejected once any encrypted message's checksum is changed |
| OSerializer.ExtraChunks | common/OSerializer.cpp:262 | chunks behind an object's last one are pushed to a coroutine that has returned, which is undefined |
| OSerializer.MissingMessages | common/OSerializer.cpp:230-269 | the first k messages of an object are accepted, with the whole object if and only if they are all of them |
| OSerializer.PlainPipeline | common/OSerializer.cpp:220-270 | serialise, frame, deserialise into a fresh object: the same object, with every chunk consumed |
| OSerializer.EncryptedPipeline | common/OSerializer.cpp:126-147 | the same with a key, for any garbage behind the chunks' bodies, whenever no chunk fails to encrypt; pad numbers are 0 to 15, ciphertexts stay within `max` and checksums agree |
| OSerializer.EncryptsEveryObjectExactly | common/OSerializer.cpp:140-143 | no object has a chunk that fails to encrypt exactly when 16 divides the buffer size |
| Compress.ZLibCompressBuf.Compress | common/compress/ZLibCompressBuf.cpp:32-43 | the output buffer receives exactly what the codec hands out, and the tail flag says whether anything is left |
| Compress.NothingForgotten | common/compress/ZLibCompressBuf.cpp:32-43 | over any calls, the output is all the codec generated and the input all it took, call by call |
| Compress.Finish | common/OSerializer.cpp:105-120 | the stream is closed with one flagged chunk, and nothing of it is lost exactly when what is pending fits one more buffer |
| Compress.CompressChunk | common/OSerializer.cpp:87-122 | the inner loop ends and takes in the whole chunk, keeping room for what is pending, or finishes the stream |
| Compress.CompressBuf | common/OSerializer.cpp:78-124 | sent bytes are the codec's complete output for the whole input, all chunks but the last exactly full, exactly the last flagged, if and only if the last chunk that comes in is not empty |
| Compress.CompressObject | common/OSerializer.cpp:29-42 | for a serialised object the stream is always ended, and it is the codec's output for the flat encoding |
| Compress.SerializeCompressed | common/OSerializer.cpp:29-42 | the messages of a compressed object |
| Compress.CompressedPaddingFits | common/OSerializer.cpp:140-143 | compressed chunks can all be encrypted exactly when the last one's padded length fits and, if there are others, 16 divides the buffer size |
| Compress.SerializeCompressedEncrypted | common/OSerializer.cpp:59-76 | the messages of a compressed and encrypted object, for any garbage behind the chunks, or a failure exactly when the key or a padded length is not accepted |
| Md5Standard.AuxiliaryFunctions | common/crypto/Md5.cpp:72-135 | the RFC's four functions are those of section 3.4, bit by bit |
| Md5Standard.Rotations | common/crypto/Md5.cpp:60 | the RFC's rotations, by each of the sixteen amounts, are to the left |
| Md5Standard.Schedule1 | common/crypto/Md5.cpp:74-89 | the constants, block words and amounts of operations 1 to 16, listed |
| Md5Standard.Schedule2 | common/crypto/Md5.cpp:95-110 | those of operations 17 to 32 |
| Md5Standard.Schedule3 | common/crypto/Md5.cpp:116-131 | those of operations 33 to 48 |
| Md5Standard.Schedule4 | common/crypto/Md5.cpp:137-152 | those of operations 49 to 64 |
| Md5Standard.RfcRounds | common/crypto/Md5.cpp:62-152 | each operation of the RFC's run, with F, G, H or I by its number, adds function, block word and constant to a, rotates, adds b and hands the words on |
| Md5Standard.BlockAdds | common/crypto/Md5.cpp:67-159 | the RFC's run starts from the words there were, and its results are added to them |
| Md5Standard.WordOfBytes | common/crypto/Md5.cpp:11-17 | a word's four bytes are its octets, the low-order one first |
| Md5Standard.BytesOfWord | common/crypto/Md5.cpp:19-25 | and the same the other way round |
| Md5Standard.BeginAndEnd | common/crypto/Md5.cpp:29-37 | the initial words of section 3.3 and the order in which the final ones are given out |
| Md5Standard.PaddedLayout | common/crypto/Md5.cpp:199-219 | the padded message: the message, a byte 0x80, zeros, and the length in bits as two words, low-order first, 64 bytes to the block |
| Md5Standard.CodeFunctions | common/crypto/Md5.cpp:72-135 | the code's four definitions of `F`, bit by bit |
| Md5Standard.CodeRotations | common/crypto/Md5.cpp:60 | the macro `S` on 64 bits |
| Md5Standard.LineIs | common/crypto/Md5.cpp:62-65 | one use of the macro `P` in each of the four rounds |
| Md5Standard.RunOneMore | common/crypto/Md5.cpp:74-152 | the lines follow one another, sixteen to a round |
| Md5Standard.ProcessAdds | common/crypto/Md5.cpp:67-159 | `md5_process` runs its 64 lines from the state's words and adds the registers to the state |
| Md5Program.RolesMove | common/crypto/Md5.cpp:62-65 | one macro line is one operation with the registers' roles handed on |
| Md5Program.CodeFollowsRfc | common/crypto/Md5.cpp:67-152 | any number of lines in the code's register naming follow the RFC's rotating naming |
| Md5Program.CodeRunRespects | common/crypto/Md5.cpp:62-65 | a map of words that respects the operations carries whole runs over |
| Md5Words.LowRespectsOps | common/crypto/Md5.cpp:60-65 | taking the low 32 bits respects the four mixing functions, addition, rotation and constants, whatever the upper bits hold |
| Md5Tables.CodeLinesMatch | common/crypto/Md5.cpp:74-152 | all 64 lines have the register order, message word, shift and sine constant of section 3.4 |
| Md5Rfc.LowGetWord | common/crypto/Md5.cpp:11-17 | the decoded message words agree with the 32-bit decoding |
| Md5Rfc.CodeStepsFollowRfc | common/crypto/Md5.cpp:67-152 | after each of the 64 lines, started from words with arbitrary upper halves, the low halves are the RFC's words |
| Md5Rfc.TransformFollowsRfc | common/crypto/Md5.cpp:39-160 | `md5_process` is the RFC's transform on low halves, each side being pinned down by itself in `Md5Standard` |
| Md5Rfc.FoldFollowsRfc | common/crypto/Md5.cpp:183-188 | so is the fold over any message |
| Md5Rfc.BytesFollowRfc | common/crypto/Md5.cpp:221-224 | the sixteen output bytes depend on the low halves only and are the RFC's |
| Md5Stream.FoldAppend | common/crypto/Md5.cpp:183-188 | folding over two whole-block parts is folding over their concatenation |
| Md5Stream.CounterAfter | common/crypto/Md5.cpp:171-175 | from a counter with any excess in its high word, an update of any length counts right, but for one more if the piece has 2^32 bits and more in 64-bit arithmetic and the low words do not carry |
| Md5Stream.CounterIsExact | common/crypto/Md5.cpp:171-175 | one update keeps the 64-bit count exact exactly when the piece is not overcounted in that way |
| Md5Stream.TotalsAreExact | common/crypto/Md5.cpp:162-197 | fewer than 2^32 pieces are counted exactly if and only if none of them is overcounted |
| Md5Stream.SinglePieceCount | common/crypto/Md5.cpp:227-233 | after a single piece the count is right exactly if its bits in 64-bit arithmetic are under 2^32, which below 2^61 bytes means under 2^29 bytes |
| Md5Stream.PadLengthIsTheOnly | common/crypto/Md5.cpp:215-216 | the padding length is the only one of 1 to 64 that leaves room for the count at the end of a block |
| Md5Stream.PaddingIsExact | common/crypto/Md5.cpp:207-219 | the code's padding is that of sections 3.1 and 3.2 exactly when its counter holds the bit count |
| Md5Stream.Md5Context.Update | common/crypto/Md5.cpp:162-197 | state is the fold over the whole blocks, buffer and left-over agree, and the message grows by the input |
| Md5Stream.Md5Context.Finish | common/crypto/Md5.cpp:207-219 | the state becomes the fold over the padded message, which ends on a block boundary |
| Md5.PiecesArePaddedExactly | common/crypto/Md5.cpp:162-219 | fewer than 2^32 pieces end up padded as sections 3.1 and 3.2 say exactly when none of them is overcounted |
| Md5.DigestOfPieces | common/crypto/Md5.cpp:162-225 | fed in any pieces, a message has the digest with the counter the code reaches; it is the RFC's if none is overcounted, in particular if each is under 2^29 bytes |
| Md5.OnePieceIsPaddedExactly | common/crypto/Md5.cpp:227-233 | a message fed in one piece is padded as the RFC says exactly when it is under 2^29 bytes |
| Md5.GenerateMD5 | common/crypto/Md5.cpp:227-233 | the RFC's digest for buffers under 2^29 bytes, and for longer ones the digest with the counter the code ends up with |
| SPSCArray.SlotIsFreeExactly | common/SPSCArray.h:152-158 | the slot about to be stored to is none of the unread ones exactly when the buffer is not full |
| SPSCArray.RingBuffer.Push | common/SPSCArray.h:65-70 | the contents grow by the item at the back |
| SPSCArray.RingBuffer.First | common/SPSCArray.h:72-80 | the item at a position of the contents |
| SPSCArray.RingBuffer.ValidAt | common/SPSCArray.h:82-85 | there is an unread item at that position |
| SPSCArray.RingBuffer.Skip | common/SPSCArray.h:92-95 | the contents lose that many items at the front |
| SPSCArray.RingBuffer.ConsumeAll | common/SPSCArray.h:107-119 | the callback sees the contents in order, and nothing is left |
| SPSCArray.StepKeepsInv | common/SPSCArray.h:152-207 | every step of either thread keeps the invariant: every unread slot holds its item, consumed is a prefix of pushed, and both threads' local positions are right |
| SPSCArray.RunKeepsInv | common/SPSCArray.h:152-207 | so does every interleaving |
| SPSCArray.EveryRunIsSafe | common/SPSCArray.h:152-207 | after any interleaving with fewer than 2^31 pushes: consumed is a prefix of pushed, the buffer is never over-full, and a pending store does not hit an unread slot |
| SPSCArray.StepRefinesQueue | common/SPSCArray.h:152-207 | every step is a step of a FIFO queue or changes nothing of it, and `First(k)` returns the queue's item k, however the producer goes on before the `Skip` |
| SPSCArray.ConsumedIsOffered | common/SPSCArray.h:152-207 | after any interleaving with fewer than 2^31 pushes, what was offered to `Push` is what was published and the item under way, in order, and what was consumed is the front of it |
| SPSCArray.SnapshotSeesAll | common/SPSCArray.h:196-200 | `consume_all` sets out to read from the first item not consumed to the last one published |
| SPSCArray.PossibleExactly | common/SPSCArray.h:152-207 | exactly when each step is possible: a push when there is room, a look or a skip within what is there |
| SPSCArray.CanCatchUp | common/SPSCArray.h:175-207 | from any reachable state the consumer can go on to get everything published |
| SPSCArray.PublishAtLimit | common/SPSCArray.h:157 | the push number 2^31 puts the write position below the read position |
| SPSCArray.BoundedExactly | common/SPSCArray.h:152-207 | a run keeps the number of unread items between 0 and the capacity throughout exactly if it has fewer than 2^31 pushes |
| SPSCArray.AnyNumberOfPushes | common/SPSCArray.h:152-207 | there is a run with any number of pushes up to the 2^31st |
| GrepFile.Query.PicksAreTheSelected | opc/OPCBasic.cpp:119-182 | what is reported is exactly the selected lines, strictly increasing, each with its own text out of the file and with its match index |
| GrepFile.Query.ReportedExactly | opc/OPCBasic.cpp:119-182 | a line is reported if and only if it matches, or one at most `before` lines after it or `after` lines before it does, or it is among the first `after` lines |
| GrepFile.Query.MatchesAreTheHits | opc/OPCBasic.cpp:138-148 | the matches are exactly the matching lines, in order, each with all its ranges |
| GrepFile.Query.TagNamesMatch | opc/OPCBasic.cpp:141-156 | a reported line's index names itself if it matches, else the match before it within `after` lines, else the next match within `before` lines; -1 exactly for lines that only trail the file's start |
| GrepFile.Query.GrowsOnlyByHits | opc/OPCBasic.cpp:150-159 | reading one more line selects earlier lines only if it matches |
| GrepFile.HitStep | opc/OPCBasic.cpp:134-162 | a matching line keeps the loop invariant, the whole buffer being reported with the new index |
| GrepFile.TrailStep | opc/OPCBasic.cpp:163-174 | a line in the `after` window is alone in the buffer and is reported |
| GrepFile.MissStep | opc/OPCBasic.cpp:176-178 | any other line stays in the buffer, and the line the full buffer forgets can never be selected |
| GrepFile.Drain | opc/OPCBasic.cpp:150-159 | the buffer is emptied in order |
| GrepFile.GrepFile | opc/OPCBasic.cpp:119-182 | the matches and the reported lines, texts and indices included, are those of the window rule, for every file, pattern, `before` and `after` |
| FileHandler.Find | opc/FileHandler.cpp:76 | the leftmost occurrence from a position on, or there is none |
| FileHandler.LoopEndsExactly | opc/FileHandler.cpp:77-81 | the loop ends exactly when the text to replace is not empty |
| FileHandler.LoopReplacesAll | opc/FileHandler.cpp:77-81 | when the rounds are over, every occurrence has been replaced |
| FileHandler.ReplaceInPlace | opc/FileHandler.cpp:74-82 | the loop computes the left-to-right replacement that never looks at inserted text |
| FileHandler.PiecesAreLeftmost | opc/FileHandler.cpp:76-80 | each piece between replacements ends where the first occurrence begins, and the last holds none |
| FileHandler.ReplacementExchangesGlue | opc/FileHandler.cpp:74-82 | line and result are the same pieces, glued with the old and the new text; k replacements change the length by k times the difference |
| Wildcard.EscapePass | opc/FileHandler.cpp:27-39 | one escaping pass, after those before it, escapes one more character and nothing twice |
| Wildcard.ExchangePass | opc/FileHandler.cpp:41-42 | the passes for escaped wildcards hit those two-character tokens and nothing else |
| Wildcard.Wildcard2Regex | opc/FileHandler.cpp:22-45 | the fifteen passes and the final `$` are one translation of each character |
| Wildcard.TranslationTable | opc/FileHandler.cpp:27-42 | which translation: the two wildcards, the eleven escaped characters by name, and every other character as itself |
| Wildcard.TranslationSplits | opc/FileHandler.cpp:27-42 | a translation goes character by character, in order |
| Wildcard.ParseTranslation | opc/FileHandler.cpp:27-44 | for a pattern without braces the expression consists of literals, `.`, `.*` and a final `$`, item by item as the pattern says |
| Wildcard.ItemsMatchGlob | opc/FileHandler.cpp:41-44 | at each position the expression matches exactly when the pattern matches from there to a line end |
| Wildcard.CompilationKeepsMeaning | opc/FileHandler.cpp:47-52 | without braces, the search succeeds exactly when some stretch of the path up to a line end matches the pattern |
| Wildcard.SuffixMatches | opc/FileHandler.cpp:47-52 | in a path without line ends, exactly when some suffix of the path matches |
| Wildcard.GlobWithoutStars | opc/FileHandler.cpp:41 | what patterns mean: without stars, character by character, with `?` for any |
| Wildcard.StarMatchesAll | opc/FileHandler.cpp:42 | a star matches anything |
| Wildcard.GlobSplits | opc/FileHandler.cpp:41-42 | patterns in sequence match texts in sequence, in every way of cutting the text |
| Wildcard.MeaningIsKeptExactly | opc/FileHandler.cpp:22-45 | among all patterns whose expression is literals, `.`, `.*`, `$` and bounds such as `{2}`, exactly those without braces are found in the same paths as their expression |
| Wildcard.BracesBound | opc/FileHandler.cpp:27-39 | an input that fails: `a{2}` finds `aa`, which the pattern does not match |
| Wildcard.BoundCounts | opc/FileHandler.cpp:44 | how bounds are taken: a bounded character is matched by as many of it as the bound allows and by no other number |

## Left out

- Coroutine interleaving: a coroutine is its list of chunks, each as it was when handed over, so `OSerializer.Deserialize` collects the bodies before the reader runs. That a checksum failure in a late message comes after the object has been partly filled in is not captured.
- `int32_t` overflow of `offset + eleSize` in `EnsureBuffer` and of `before + 1` in `GrepFile`: those sums are unbounded here.
- Byte order: plain objects and MD5's output are laid out as on a little-endian host; `OMessage`'s own header bytes are not laid out at all, and its one-byte fields hold their values without truncation.
- AES, CRC-32 and zlib themselves: a lawful block cipher, any checksum function and any codec that keeps `Compress.Streaming` stand for them. Keys shorter than a block, which the library would read past, are covered by `accepts` only.
- The compressed branch of `Deserialize`, whose loop stops when the input is used up and so need not drain the inflater; `RoundTrip.RechunkedIsRead` is the interface to any stage that does deliver the bytes.
- OSerializer.Deserialize: asks that each message is not compressed and, if encrypted, that the key is accepted and the body is a whole number of blocks that fits a buffer and is not shorter than its padding, because outside of that the code ignores a failed `AESDecrypt` and reads memory it never wrote.
- ProtoWriter.Writer.WriteStream: asks that the stream still holds `size` bytes; a short `istream::read` would send whatever the buffer held.
- SPSCArray.RingBuffer.Push: asks for room, as the source's assertion does; what a build without assertions overwrites is not modelled. Only the variants with a plain and with an atomic write position are covered, and memory is sequentially consistent.
- SPSCArray.RingBuffer.First: asks for an item to be there, where the source returns whatever the slot holds; the two overloads are one method with a position.
- SPSCArray.RingBuffer.Skip: asks for no more than there is, as a caller that stays within `Size` does; going beyond leaves positions no operation is meant for.
- Runs of the ring buffer after the 2^31st push: the positions overflow and index before the array, so nothing is said about them.
- DfcCrypto.AESDecrypt: asks for a whole number of blocks and for a buffer that holds all of the decrypted bytes when it holds the unpadded ones, because the library writes whole blocks.
- MD5's 64 macro lines are a table run by `Md5Program.CodeRun`, not 64 statements; the streaming class takes its block transform as a parameter, and `Md5.Finish` sets it to the code's.
- `MD5(const char*)` and its parsing of hexadecimal digits.
- The regular expression language beyond literals, `.`, `.*`, `$` and bounds, and the regex engines: `Wildcard.MatchesAt` says what those items mean, in the way of Perl, with the set of line-ending characters as a parameter. A brace that does not belong to a bound (`{`, `{a}`, a lone `}`), and a bound with nothing to repeat, are not interpreted. The extra pass of Windows builds is not modelled.
- File and directory access: a file is its list of lines, and walking directories only calls what is modelled.
- Sockets, connection managers, servers, clients, dispatchers, process control and the enum helpers.
- RSA, Blowfish and the string overloads of the AES functions, thin wrappers of a library.
