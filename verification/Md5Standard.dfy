/**
 RFC 1321 written out, operation by operation, and the code beside it: what the 64 lines do to the
 four words, in terms of single operations on words, each of which is given by its bits.
 */
module Md5Standard {
  import opened Bytes
  import opened Md5Program
  import opened Md5Words
  import opened Md5Tables
  import opened Md5Stream
  import opened Md5Rfc

  // ----- single operations of the RFC -----

  /** Section 3.4: the four auxiliary functions. */
  lemma AuxiliaryFunctions(x: bv32, y: bv32, z: bv32)
    ensures RfcF(x, y, z) == (x & y) | (!x & z)
    ensures RfcG(x, y, z) == (x & z) | (y & !z)
    ensures RfcH(x, y, z) == x ^ y ^ z
    ensures RfcI(x, y, z) == y ^ (x | !z)
  {
  }

  /** Section 2: sums are modulo 2^32. */
  lemma Sums(x: bv32, y: bv32)
    ensures RfcAdd(x, y) == x + y
  {
  }

  /** Section 2: rotations are to the left. */
  lemma Rotations(x: bv32)
    ensures RfcRotate(x, 7) == (x << 7) | (x >> 25) && RfcRotate(x, 12) == (x << 12) | (x >> 20)
    ensures RfcRotate(x, 17) == (x << 17) | (x >> 15) && RfcRotate(x, 22) == (x << 22) | (x >> 10)
    ensures RfcRotate(x, 5) == (x << 5) | (x >> 27) && RfcRotate(x, 9) == (x << 9) | (x >> 23)
    ensures RfcRotate(x, 14) == (x << 14) | (x >> 18) && RfcRotate(x, 20) == (x << 20) | (x >> 12)
    ensures RfcRotate(x, 4) == (x << 4) | (x >> 28) && RfcRotate(x, 11) == (x << 11) | (x >> 21)
    ensures RfcRotate(x, 16) == (x << 16) | (x >> 16) && RfcRotate(x, 23) == (x << 23) | (x >> 9)
    ensures RfcRotate(x, 6) == (x << 6) | (x >> 26) && RfcRotate(x, 10) == (x << 10) | (x >> 22)
    ensures RfcRotate(x, 15) == (x << 15) | (x >> 17) && RfcRotate(x, 21) == (x << 21) | (x >> 11)
  {
  }

  // ----- the schedule of section 3.4 -----

  lemma Schedule1()
    ensures Sine()[0..16] == [
        0xd76aa478, 0xe8c7b756, 0x242070db, 0xc1bdceee,
        0xf57c0faf, 0x4787c62a, 0xa8304613, 0xfd469501,
        0x698098d8, 0x8b44f7af, 0xffff5bb1, 0x895cd7be,
        0x6b901122, 0xfd987193, 0xa679438e, 0x49b40821]
    ensures forall i :: 0 <= i < 16 ==> K(0 + i) == [0, 1, 2, 3, 4, 5, 6, 7, 8, 9, 10, 11, 12, 13, 14, 15][i]
    ensures forall i :: 0 <= i < 16 ==> Shift(0 + i) == [7, 12, 17, 22][i % 4]
  {
  }

  lemma Schedule2()
    ensures Sine()[16..32] == [
        0xf61e2562, 0xc040b340, 0x265e5a51, 0xe9b6c7aa,
        0xd62f105d, 0x02441453, 0xd8a1e681, 0xe7d3fbc8,
        0x21e1cde6, 0xc33707d6, 0xf4d50d87, 0x455a14ed,
        0xa9e3e905, 0xfcefa3f8, 0x676f02d9, 0x8d2a4c8a]
    ensures forall i :: 0 <= i < 16 ==> K(16 + i) == [1, 6, 11, 0, 5, 10, 15, 4, 9, 14, 3, 8, 13, 2, 7, 12][i]
    ensures forall i :: 0 <= i < 16 ==> Shift(16 + i) == [5, 9, 14, 20][i % 4]
  {
  }

  lemma Schedule3()
    ensures Sine()[32..48] == [
        0xfffa3942, 0x8771f681, 0x6d9d6122, 0xfde5380c,
        0xa4beea44, 0x4bdecfa9, 0xf6bb4b60, 0xbebfbc70,
        0x289b7ec6, 0xeaa127fa, 0xd4ef3085, 0x04881d05,
        0xd9d4d039, 0xe6db99e5, 0x1fa27cf8, 0xc4ac5665]
    ensures forall i :: 0 <= i < 16 ==> K(32 + i) == [5, 8, 11, 14, 1, 4, 7, 10, 13, 0, 3, 6, 9, 12, 15, 2][i]
    ensures forall i :: 0 <= i < 16 ==> Shift(32 + i) == [4, 11, 16, 23][i % 4]
  {
  }

  lemma Schedule4()
    ensures Sine()[48..64] == [
        0xf4292244, 0x432aff97, 0xab9423a7, 0xfc93a039,
        0x655b59c3, 0x8f0ccc92, 0xffeff47d, 0x85845dd1,
        0x6fa87e4f, 0xfe2ce6e0, 0xa3014314, 0x4e0811a1,
        0xf7537e82, 0xbd3af235, 0x2ad7d2bb, 0xeb86d391]
    ensures forall i :: 0 <= i < 16 ==> K(48 + i) == [0, 7, 14, 5, 12, 3, 10, 1, 8, 15, 6, 13, 4, 11, 2, 9][i]
    ensures forall i :: 0 <= i < 16 ==> Shift(48 + i) == [6, 10, 15, 21][i % 4]
  {
  }

  /** Operation `n`: one of the four functions, the block's word, the constant, the rotation, the sum. */
  lemma RfcRounds(s: State<bv32>, x: seq<bv32>, n: nat)
    requires |x| == 16 && n < 64
    ensures var p, q := RfcRun(RfcOps(), Sine(), s, x, n), RfcRun(RfcOps(), Sine(), s, x, n + 1);
      var f := if n < 16 then RfcF(p.b, p.c, p.d) else if n < 32 then RfcG(p.b, p.c, p.d)
               else if n < 48 then RfcH(p.b, p.c, p.d) else RfcI(p.b, p.c, p.d);
      && q.a == p.d && q.c == p.b && q.d == p.c
      && q.b == RfcAdd(RfcRotate(RfcAdd(p.a, RfcAdd(RfcAdd(f, x[K(n)]), RfcWord(Sine()[n]))), Shift(n)), p.b)
  {
    hide RfcF, RfcG, RfcH, RfcI, RfcAdd, RfcRotate, RfcWord, K, Shift, Sine;
  }

  lemma RunNothing<W>(ops: WordOps<W>, sine: seq<int>, s: State<W>, x: seq<W>)
    requires |sine| == 64 && |x| == 16
    ensures RfcRun(ops, sine, s, x, 0) == s
  {
  }

  /** The operations start from the words there were, and their results are added to those. */
  lemma BlockAdds(s: State<bv32>, block: Bytes)
    requires |block| == BLOCK
    ensures RfcRun(RfcOps(), Sine(), s, Words32(block), 0) == s
    ensures var p := RfcRun(RfcOps(), Sine(), s, Words32(block), 64);
      RfcTransform(s, block)
      == State(RfcAdd(s.a, p.a), RfcAdd(s.b, p.b), RfcAdd(s.c, p.c), RfcAdd(s.d, p.d))
  {
    hide RfcRun, RfcAdd, Words32, Sine, RfcF, RfcG, RfcH, RfcI, RfcRotate, RfcWord;
    RunNothing(RfcOps(), Sine(), s, Words32(block));
  }

  // ----- words and bytes -----

  /** Section 2: the low-order byte of a word comes first. */
  lemma WordOfBytes(b0: bv8, b1: bv8, b2: bv8, b3: bv8)
    ensures var w := GetWord32(b0, b1, b2, b3);
      && (w & 0xFF) as bv8 == b0 && ((w >> 8) & 0xFF) as bv8 == b1
      && ((w >> 16) & 0xFF) as bv8 == b2 && ((w >> 24) & 0xFF) as bv8 == b3
  {
  }

  lemma WordsOfBlock(block: Bytes, i: nat)
    requires |block| == BLOCK && i < 16
    ensures Words32(block)[i] ==
      GetWord32(block[4 * i] as bv8, block[4 * i + 1] as bv8, block[4 * i + 2] as bv8, block[4 * i + 3] as bv8)
  {
    hide GetWord32;
  }

  lemma BytesOfWord(w: bv32)
    ensures PutWord32(w) == [(w & 0xFF) as bv8 as Byte, ((w >> 8) & 0xFF) as bv8 as Byte,
                             ((w >> 16) & 0xFF) as bv8 as Byte, ((w >> 24) & 0xFF) as bv8 as Byte]
  {
  }

  /** Sections 3.3 and 3.5: the initial words, and the order in which the final ones are given out. */
  lemma BeginAndEnd(s: State<bv32>)
    ensures RfcInit() == State(0x6745_2301, 0xEFCD_AB89, 0x98BA_DCFE, 0x1032_5476)
    ensures RfcBytes(s)[0..4] == PutWord32(s.a) && RfcBytes(s)[4..8] == PutWord32(s.b)
    ensures RfcBytes(s)[8..12] == PutWord32(s.c) && RfcBytes(s)[12..16] == PutWord32(s.d)
  {
    hide PutWord32;
  }

  /** Sections 3.1 and 3.2: the message, a one bit, zero bits, and the length in bits as two words, low-order first. */
  lemma PaddedLayout(m: Bytes)
    ensures var p, n := Padded(m), |m|;
      && |p| % 64 == 0 && n + 9 <= |p| <= n + 72
      && p[..n] == m && p[n] == 0x80 && (forall i :: n < i < |p| - 8 ==> p[i] == 0)
      && p[|p| - 8..|p| - 4] == Int32Bytes(8 * n) && p[|p| - 4..] == Int32Bytes(8 * n / 0x1_0000_0000)
  {
    hide Int32Bytes, PadLength, Padding;
    var p, n, k := Padded(m), |m|, PadLength(|m|);
    FourParts(p, m, Padding(k), Int32Bytes(8 * n), Int32Bytes(8 * n / 0x1_0000_0000));
    ZeroPadding(k);
    forall i | n < i < |p| - 8 ensures p[i] == 0 {
      assert p[i] == p[n..n + k][i - n];
    }
    assert p[n] == p[n..n + k][0];
  }

  lemma ZeroPadding(k: nat)
    requires 1 <= k
    ensures Padding(k)[0] == 0x80 && forall i :: 0 < i < k ==> Padding(k)[i] == 0
  {
  }

  lemma FourParts(p: Bytes, m: Bytes, pad: Bytes, low: Bytes, high: Bytes)
    requires p == m + pad + (low + high) && |low| == |high| == 4
    ensures var n, k := |m|, |pad|;
      && |p| == n + k + 8 && p[..n] == m && p[n..n + k] == pad
      && p[|p| - 8..|p| - 4] == low && p[|p| - 4..] == high
  {
  }

  // ----- the code -----

  /** The four definitions of the macro `F`. */
  lemma CodeFunctions(x: bv64, y: bv64, z: bv64)
    ensures CodeF(x, y, z) == z ^ (x & (y ^ z))
    ensures CodeG(x, y, z) == y ^ (z & (x ^ y))
    ensures CodeH(x, y, z) == x ^ y ^ z
    ensures CodeI(x, y, z) == y ^ (x | !z)
  {
  }

  lemma CodeSums(x: bv64, y: bv64)
    ensures CodeAdd(x, y) == x + y
  {
  }

  /** The macro `S`, for one amount of each round: what is above the low 32 bits is shifted along. */
  lemma CodeRotations(x: bv64)
    ensures CodeRotate(x, 7) == (x << 7) | ((x & 0xFFFF_FFFF) >> 25)
    ensures CodeRotate(x, 5) == (x << 5) | ((x & 0xFFFF_FFFF) >> 27)
    ensures CodeRotate(x, 4) == (x << 4) | ((x & 0xFFFF_FFFF) >> 28)
    ensures CodeRotate(x, 6) == (x << 6) | ((x & 0xFFFF_FFFF) >> 26)
  {
  }

  /** One use of the macro `P` in each of the four rounds. */
  lemma LineIs(r: seq<bv64>, x: seq<bv64>, l: Line, round: nat)
    requires |x| == 16 && |r| == 4 && ValidLine(l) && round < 4
    ensures var (b, c, d) := (r[l.b], r[l.c], r[l.d]);
      var f := if round == 0 then CodeF(b, c, d) else if round == 1 then CodeG(b, c, d)
               else if round == 2 then CodeH(b, c, d) else CodeI(b, c, d);
      Exec(CodeOps(), round, l, r, x)
      == r[l.a := CodeAdd(CodeRotate(CodeAdd(r[l.a], CodeAdd(CodeAdd(f, x[l.k]), CodeWord(l.t))), l.s), b)]
  {
    hide CodeF, CodeG, CodeH, CodeI, CodeAdd, CodeRotate, CodeWord;
  }

  /** Each line is executed on what the lines before it left, 16 to a round. */
  lemma RunOneMore<W>(ops: WordOps<W>, lines: seq<Line>, regs: seq<W>, x: seq<W>, n: nat)
    requires ValidLines(lines) && |regs| == 4 && |x| == 16 && n < 64
    ensures CodeRun(ops, lines, regs, x, n + 1) == Exec(ops, n / 16, lines[n], CodeRun(ops, lines, regs, x, n), x)
    ensures CodeRun(ops, lines, regs, x, 0) == regs
  {
  }

  /** `md5_process`: the lines one after the other from the state's words, whose results are added to it. */
  lemma ProcessAdds(s: State<bv64>, block: Bytes)
    requires |block| == BLOCK
    ensures ValidLines(CodeLines())
    ensures var r := CodeRun(CodeOps(), CodeLines(), [s.a, s.b, s.c, s.d], Words64(block), 64);
      CodeTransform(s, block)
      == State(CodeAdd(s.a, r[0]), CodeAdd(s.b, r[1]), CodeAdd(s.c, r[2]), CodeAdd(s.d, r[3]))
  {
    hide CodeRun, CodeAdd, Words64, CodeLines, CodeF, CodeG, CodeH, CodeI, CodeRotate, CodeWord;
    CodeLinesMatch();
  }
}
