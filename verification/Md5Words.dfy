/**
 The 64-bit words `Md5.cpp` computes with (its `uint32` is `unsigned long`) and the 32-bit words of
 RFC 1321.  `Low` keeps the 32 bits that matter; every operation of the code respects it, whatever
 the upper half holds.
 */
module Md5Words {
  import opened Bytes
  import opened Md5Program

  function Low(x: bv64): bv32 {
    (x & 0xFFFF_FFFF) as bv32
  }

  /** The macro `S`: a rotation of the low half, with whatever the upper half held shifted along. */
  function S(x: bv64, n: bv6): bv64
    requires 0 < n < 32
  {
    (x << n) | ((x & 0xFFFF_FFFF) >> (32 - n))
  }

  /** `X <<< n` of section 2 of RFC 1321. */
  function RotateLeft(x: bv32, n: bv6): bv32
    requires 0 < n < 32
  {
    (x << n) | (x >> (32 - n))
  }

  function CodeF(x: bv64, y: bv64, z: bv64): bv64 { z ^ (x & (y ^ z)) }
  function CodeG(x: bv64, y: bv64, z: bv64): bv64 { y ^ (z & (x ^ y)) }
  function CodeH(x: bv64, y: bv64, z: bv64): bv64 { x ^ y ^ z }
  function CodeI(x: bv64, y: bv64, z: bv64): bv64 { y ^ (x | !z) }
  function CodeAdd(x: bv64, y: bv64): bv64 { x + y }
  function CodeRotate(x: bv64, n: nat): bv64 { if 0 < n < 32 then S(x, n as bv6) else x }
  function CodeWord(n: int): bv64 { if 0 <= n < INT32_SPAN then n as bv64 else 0 }

  function RfcF(x: bv32, y: bv32, z: bv32): bv32 { (x & y) | (!x & z) }
  function RfcG(x: bv32, y: bv32, z: bv32): bv32 { (x & z) | (y & !z) }
  function RfcH(x: bv32, y: bv32, z: bv32): bv32 { x ^ y ^ z }
  function RfcI(x: bv32, y: bv32, z: bv32): bv32 { y ^ (x | !z) }
  function RfcAdd(x: bv32, y: bv32): bv32 { x + y }
  function RfcRotate(x: bv32, n: nat): bv32 { if 0 < n < 32 then RotateLeft(x, n as bv6) else x }
  function RfcWord(n: int): bv32 { if 0 <= n < INT32_SPAN then n as bv32 else 0 }

  /** The macros of `md5_process`, on 64-bit words. */
  function CodeOps(): WordOps<bv64> {
    WordOps(CodeF, CodeG, CodeH, CodeI, CodeAdd, CodeRotate, CodeWord)
  }

  /** F, G, H and I of section 3.4 of RFC 1321, addition modulo 2^32 and rotation. */
  function RfcOps(): WordOps<bv32> {
    WordOps(RfcF, RfcG, RfcH, RfcI, RfcAdd, RfcRotate, RfcWord)
  }

  lemma LowIs(x: bv64)
    ensures Low(x) == (x & 0xFFFF_FFFF) as bv32
  {
  }

  // A rotation is two shifts and an or; each of the three respects `Low`.

  function Left64(x: bv64, n: bv6): bv64
    requires n < 32
  {
    x << n
  }

  function Left32(w: bv32, n: bv6): bv32
    requires n < 32
  {
    w << n
  }

  function Right64(x: bv64, n: bv6): bv64
    requires n < 32
  {
    (x & 0xFFFF_FFFF) >> n
  }

  function Right32(w: bv32, n: bv6): bv32
    requires n < 32
  {
    w >> n
  }

  function Or64(x: bv64, y: bv64): bv64 { x | y }
  function Or32(v: bv32, w: bv32): bv32 { v | w }

  lemma LeftRespects(x: bv64, n: bv6)
    requires n < 32
    ensures Low(Left64(x, n)) == Left32(Low(x), n)
  {
  }

  lemma RightRespects(x: bv64, n: bv6)
    requires n < 32
    ensures Low(Right64(x, n)) == Right32(Low(x), n)
  {
  }

  lemma OrRespects(x: bv64, y: bv64)
    ensures Low(Or64(x, y)) == Or32(Low(x), Low(y))
  {
  }

  lemma RotateParts(x: bv64, w: bv32, n: bv6)
    requires 0 < n < 32
    ensures S(x, n) == Or64(Left64(x, n), Right64(x, 32 - n))
    ensures RotateLeft(w, n) == Or32(Left32(w, n), Right32(w, 32 - n))
  {
  }

  lemma LowRotate(x: bv64, n: bv6)
    requires 0 < n < 32
    ensures Low(S(x, n)) == RotateLeft(Low(x), n)
  {
    hide *;
    RotateParts(x, Low(x), n);
    LeftRespects(x, n);
    RightRespects(x, 32 - n);
    OrRespects(Left64(x, n), Right64(x, 32 - n));
  }

  lemma LowMux(x: bv64, y: bv64, z: bv64)
    ensures Low(z ^ (x & (y ^ z))) == (Low(x) & Low(y)) | (!Low(x) & Low(z))
  {
    LowIs(x);
    LowIs(y);
    LowIs(z);
    LowIs(z ^ (x & (y ^ z)));
  }

  lemma LowMuxSwapped(x: bv64, y: bv64, z: bv64)
    ensures Low(y ^ (z & (x ^ y))) == (Low(x) & Low(z)) | (Low(y) & !Low(z))
  {
    LowIs(x);
    LowIs(y);
    LowIs(z);
    LowIs(y ^ (z & (x ^ y)));
  }

  lemma LowParity(x: bv64, y: bv64, z: bv64)
    ensures Low(x ^ y ^ z) == Low(x) ^ Low(y) ^ Low(z)
  {
    LowIs(x);
    LowIs(y);
    LowIs(z);
    LowIs(x ^ y ^ z);
  }

  lemma LowOrNot(x: bv64, y: bv64, z: bv64)
    ensures Low(y ^ (x | !z)) == Low(y) ^ (Low(x) | !Low(z))
  {
    LowIs(x);
    LowIs(y);
    LowIs(z);
    LowIs(y ^ (x | !z));
  }

  lemma FRespects(x: bv64, y: bv64, z: bv64)
    ensures Low(CodeF(x, y, z)) == RfcF(Low(x), Low(y), Low(z))
  {
    LowMux(x, y, z);
  }

  lemma GRespects(x: bv64, y: bv64, z: bv64)
    ensures Low(CodeG(x, y, z)) == RfcG(Low(x), Low(y), Low(z))
  {
    LowMuxSwapped(x, y, z);
  }

  lemma HRespects(x: bv64, y: bv64, z: bv64)
    ensures Low(CodeH(x, y, z)) == RfcH(Low(x), Low(y), Low(z))
  {
    LowParity(x, y, z);
  }

  lemma IRespects(x: bv64, y: bv64, z: bv64)
    ensures Low(CodeI(x, y, z)) == RfcI(Low(x), Low(y), Low(z))
  {
    LowOrNot(x, y, z);
  }

  function LowTotal(x: bv64, y: bv64): bv32 {
    ((x & 0xFFFF_FFFF) as bv32) + ((y & 0xFFFF_FFFF) as bv32)
  }

  lemma CodeAddIs(x: bv64, y: bv64)
    ensures CodeAdd(x, y) == x + y
  {
  }

  lemma LowSum(x: bv64, y: bv64, t: bv32)
    requires t == ((x & 0xFFFF_FFFF) as bv32) + ((y & 0xFFFF_FFFF) as bv32)
    ensures Low(CodeAdd(x, y)) == t
  {
    CodeAddIs(x, y);
    LowIs(x + y);
  }

  lemma CodeTotal(x: bv64, y: bv64)
    ensures Low(CodeAdd(x, y)) == LowTotal(x, y)
  {
    hide Low, CodeAdd;
    LowSum(x, y, LowTotal(x, y));
  }

  lemma RfcTotal(x: bv64, y: bv64)
    ensures RfcAdd((x & 0xFFFF_FFFF) as bv32, (y & 0xFFFF_FFFF) as bv32) == LowTotal(x, y)
  {
  }

  lemma AddRespects(x: bv64, y: bv64)
    ensures Low(CodeAdd(x, y)) == RfcAdd(Low(x), Low(y))
  {
    hide *;
    LowIs(x);
    LowIs(y);
    CodeTotal(x, y);
    RfcTotal(x, y);
  }

  lemma RotateRespects(x: bv64, n: nat)
    ensures Low(CodeRotate(x, n)) == RfcRotate(Low(x), n)
  {
    if 0 < n < 32 {
      LowRotate(x, n as bv6);
    }
  }

  lemma WordRespects(n: int)
    requires 0 <= n < INT32_SPAN
    ensures Low(CodeWord(n)) == RfcWord(n)
  {
    assert Low(n as bv64) == n as bv32;
  }

  lemma AllFRespect()
    ensures RespectsMix(Low, CodeF, RfcF)
  {
    forall x, y, z ensures Low(CodeF(x, y, z)) == RfcF(Low(x), Low(y), Low(z)) {
      FRespects(x, y, z);
    }
  }

  lemma AllGRespect()
    ensures RespectsMix(Low, CodeG, RfcG)
  {
    forall x, y, z ensures Low(CodeG(x, y, z)) == RfcG(Low(x), Low(y), Low(z)) {
      GRespects(x, y, z);
    }
  }

  lemma AllHRespect()
    ensures RespectsMix(Low, CodeH, RfcH)
  {
    forall x, y, z ensures Low(CodeH(x, y, z)) == RfcH(Low(x), Low(y), Low(z)) {
      HRespects(x, y, z);
    }
  }

  lemma AllIRespect()
    ensures RespectsMix(Low, CodeI, RfcI)
  {
    forall x, y, z ensures Low(CodeI(x, y, z)) == RfcI(Low(x), Low(y), Low(z)) {
      IRespects(x, y, z);
    }
  }

  lemma AllAddRespect()
    ensures RespectsAdd(Low, CodeAdd, RfcAdd)
  {
    forall x, y ensures Low(CodeAdd(x, y)) == RfcAdd(Low(x), Low(y)) {
      AddRespects(x, y);
    }
  }

  lemma AllRotateRespect()
    ensures RespectsRotate(Low, CodeRotate, RfcRotate)
  {
    forall x, n: nat ensures Low(CodeRotate(x, n)) == RfcRotate(Low(x), n) {
      RotateRespects(x, n);
    }
  }

  lemma AllWordRespect()
    ensures RespectsWord(Low, CodeWord, RfcWord)
  {
    forall n | 0 <= n < INT32_SPAN ensures Low(CodeWord(n)) == RfcWord(n) {
      WordRespects(n);
    }
  }

  /** The 64-bit macros do to the low halves what the RFC's 32-bit functions do. */
  lemma LowRespectsOps()
    ensures Respects(Low, CodeOps(), RfcOps())
  {
    AllFRespect();
    AllGRespect();
    AllHRespect();
    AllIRespect();
    AllAddRespect();
    AllRotateRespect();
    AllWordRespect();
  }
}
