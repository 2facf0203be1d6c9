/** MD5 as RFC 1321 defines it, and the block transform of `Md5.cpp` proved equal to it. */
module Md5Rfc {
  import opened Bytes
  import opened Md5Program
  import opened Md5Words
  import opened Md5Tables
  import opened Md5Stream

  // ----- words and bytes -----

  /** `GET_UINT32`. */
  function GetWord64(b0: bv8, b1: bv8, b2: bv8, b3: bv8): bv64 {
    (b0 as bv64) | ((b1 as bv64) << 8) | ((b2 as bv64) << 16) | ((b3 as bv64) << 24)
  }

  /** A word from four bytes, low-order byte first (section 2 of RFC 1321). */
  function GetWord32(b0: bv8, b1: bv8, b2: bv8, b3: bv8): bv32 {
    (b0 as bv32) | ((b1 as bv32) << 8) | ((b2 as bv32) << 16) | ((b3 as bv32) << 24)
  }

  lemma GetWordBits(b0: bv8, b1: bv8, b2: bv8, b3: bv8)
    ensures (((b0 as bv64) | ((b1 as bv64) << 8) | ((b2 as bv64) << 16) | ((b3 as bv64) << 24)) & 0xFFFF_FFFF) as bv32
         == (b0 as bv32) | ((b1 as bv32) << 8) | ((b2 as bv32) << 16) | ((b3 as bv32) << 24)
  {
  }

  lemma LowGetWord(b0: bv8, b1: bv8, b2: bv8, b3: bv8)
    ensures Low(GetWord64(b0, b1, b2, b3)) == GetWord32(b0, b1, b2, b3)
  {
    GetWordBits(b0, b1, b2, b3);
    LowIs((b0 as bv64) | ((b1 as bv64) << 8) | ((b2 as bv64) << 16) | ((b3 as bv64) << 24));
  }

  /** Byte `i` of `PUT_UINT32`. */
  function PutByte64(n: bv64, i: bv6): bv8
    requires i < 4
  {
    ((n >> (8 * i)) & 0xFF) as bv8
  }

  function PutByte32(w: bv32, i: bv6): bv8
    requires i < 4
  {
    ((w >> (8 * i)) & 0xFF) as bv8
  }

  lemma PutByteBits(n: bv64, w: bv32, i: bv6)
    requires i < 4 && w == (n & 0xFFFF_FFFF) as bv32
    ensures ((n >> (8 * i)) & 0xFF) as bv8 == ((w >> (8 * i)) & 0xFF) as bv8
  {
  }

  lemma PutByteIsLow(n: bv64, i: bv6)
    requires i < 4
    ensures PutByte64(n, i) == PutByte32(Low(n), i)
  {
    LowIs(n);
    PutByteBits(n, Low(n), i);
  }

  /** `PUT_UINT32`. */
  function PutWord64(n: bv64): (b: Bytes)
    ensures |b| == 4
  {
    [PutByte64(n, 0) as Byte, PutByte64(n, 1) as Byte, PutByte64(n, 2) as Byte, PutByte64(n, 3) as Byte]
  }

  /** A word as four bytes, low-order byte first. */
  function PutWord32(w: bv32): (b: Bytes)
    ensures |b| == 4
  {
    [PutByte32(w, 0) as Byte, PutByte32(w, 1) as Byte, PutByte32(w, 2) as Byte, PutByte32(w, 3) as Byte]
  }

  lemma PutWordIsLow(n: bv64)
    ensures PutWord64(n) == PutWord32(Low(n))
  {
    PutByteIsLow(n, 0);
    PutByteIsLow(n, 1);
    PutByteIsLow(n, 2);
    PutByteIsLow(n, 3);
  }

  // ----- the block transform -----

  function Words64(block: Bytes): (x: seq<bv64>)
    requires |block| == BLOCK
    ensures |x| == 16
  {
    seq(16, i requires 0 <= i < 16 =>
      GetWord64(block[4 * i] as bv8, block[4 * i + 1] as bv8, block[4 * i + 2] as bv8, block[4 * i + 3] as bv8))
  }

  function Words32(block: Bytes): (x: seq<bv32>)
    requires |block| == BLOCK
    ensures |x| == 16
  {
    seq(16, i requires 0 <= i < 16 =>
      GetWord32(block[4 * i] as bv8, block[4 * i + 1] as bv8, block[4 * i + 2] as bv8, block[4 * i + 3] as bv8))
  }

  /** `md5_process`. */
  function CodeTransform(s: State<bv64>, block: Bytes): State<bv64> {
    CodeLinesMatch();
    if |block| == BLOCK then CodeBlock(CodeOps(), CodeLines(), s, Words64(block)) else s
  }

  /** Section 3.4 of RFC 1321. */
  function RfcTransform(s: State<bv32>, block: Bytes): State<bv32> {
    if |block| == BLOCK then RfcBlock(RfcOps(), Sine(), s, Words32(block)) else s
  }

  function LowState(s: State<bv64>): State<bv32> {
    MapState(Low, s)
  }

  lemma WordNarrowed(block: Bytes, i: nat)
    requires |block| == BLOCK && i < 16
    ensures Low(Words64(block)[i]) == Words32(block)[i]
  {
    hide Low, GetWord64, GetWord32;
    LowGetWord(block[4 * i] as bv8, block[4 * i + 1] as bv8, block[4 * i + 2] as bv8, block[4 * i + 3] as bv8);
  }

  lemma WordsNarrowed(block: Bytes)
    requires |block| == BLOCK
    ensures Narrowed(Low, Words64(block), Words32(block))
  {
    hide Low, Words64, Words32;
    forall i | 0 <= i < 16 ensures Low(Words64(block)[i]) == Words32(block)[i] {
      WordNarrowed(block, i);
    }
  }

  /**
   After any number of lines, started from words with arbitrary upper halves, the low halves of the
   code's registers are the RFC's words, each in its role.
   */
  lemma CodeStepsFollowRfc(s: State<bv64>, block: Bytes, n: nat)
    requires |block| == BLOCK && n <= 64
    ensures ValidLines(CodeLines())
    ensures LowState(Roles(CodeRun(CodeOps(), CodeLines(), Registers(s), Words64(block), n), n))
         == RfcRun(RfcOps(), Sine(), LowState(s), Words32(block), n)
  {
    CodeLinesMatch();
    LowRespectsOps();
    WordsNarrowed(block);
    RegistersFollowRfc(Low, CodeOps(), RfcOps(), CodeLines(), Sine(), s, Words64(block), Words32(block), n);
  }

  /** `md5_process` is the RFC's transform on the low halves, whatever the upper halves hold. */
  lemma TransformFollowsRfc(s: State<bv64>, block: Bytes)
    ensures LowState(CodeTransform(s, block)) == RfcTransform(LowState(s), block)
  {
    CodeLinesMatch();
    LowRespectsOps();
    if |block| == BLOCK {
      WordsNarrowed(block);
      BlockFollowsRfc(Low, CodeOps(), RfcOps(), CodeLines(), Sine(), s, Words64(block), Words32(block));
    }
  }

  // ----- the digest of a message -----

  /** Section 3.3 of RFC 1321. */
  function RfcInit(): State<bv32> {
    State(0x67452301, 0xEFCDAB89, 0x98BADCFE, 0x10325476)
  }

  function CodeInit(): State<bv64> {
    State(0x67452301, 0xEFCDAB89, 0x98BADCFE, 0x10325476)
  }

  lemma InitsAgree()
    ensures LowState(CodeInit()) == RfcInit()
  {
  }

  lemma {:induction false} FoldFollowsRfc(s: State<bv64>, m: Bytes)
    ensures LowState(Fold(CodeTransform, s, m)) == Fold(RfcTransform, LowState(s), m)
    decreases |m|
  {
    if |m| < BLOCK {
    } else {
      TransformFollowsRfc(s, m[..BLOCK]);
      FoldFollowsRfc(CodeTransform(s, m[..BLOCK]), m[BLOCK..]);
    }
  }

  /** Section 3.5 of RFC 1321. */
  function RfcBytes(s: State<bv32>): (b: Bytes)
    ensures |b| == 16
  {
    PutWord32(s.a) + PutWord32(s.b) + PutWord32(s.c) + PutWord32(s.d)
  }

  /** The output statements of `md5_finish`. */
  function CodeBytes(s: State<bv64>): (b: Bytes)
    ensures |b| == 16
  {
    PutWord64(s.a) + PutWord64(s.b) + PutWord64(s.c) + PutWord64(s.d)
  }

  lemma BytesFollowRfc(s: State<bv64>)
    ensures CodeBytes(s) == RfcBytes(LowState(s))
  {
    PutWordIsLow(s.a);
    PutWordIsLow(s.b);
    PutWordIsLow(s.c);
    PutWordIsLow(s.d);
  }

  /** The message digest of RFC 1321. */
  function RfcDigest(m: Bytes): Bytes {
    RfcBytes(Fold(RfcTransform, RfcInit(), Padded(m)))
  }

  /** The digest of a message padded with the two words of a counter. */
  function DigestWith(m: Bytes, total0: nat, total1: nat): Bytes {
    RfcBytes(Fold(RfcTransform, RfcInit(), PaddedWith(m, total0, total1)))
  }
}
