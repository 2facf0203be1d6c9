/**
 The streaming interface of `Md5.cpp`, for any block transform: a context that is fed a message in
 pieces, buffers what does not fill a block and counts the bits.
 */
module Md5Stream {
  import opened Bytes

  const BLOCK: nat := 64

  /** The range of the code's `uint32`, which is `unsigned long`. */
  const WORD64: int := 0x1_0000_0000_0000_0000

  /** The whole blocks of `m` processed one after the other. */
  function Fold<S>(process: (S, Bytes) -> S, s: S, m: Bytes): S
    decreases |m|
  {
    if |m| < BLOCK then s else Fold(process, process(s, m[..BLOCK]), m[BLOCK..])
  }

  lemma {:induction false} FoldAppend<S>(process: (S, Bytes) -> S, s: S, m: Bytes, n: Bytes)
    requires |m| % BLOCK == 0
    ensures Fold(process, s, m + n) == Fold(process, Fold(process, s, m), n)
    decreases |m|
  {
    if |m| < BLOCK {
      assert m == [] && m + n == n;
    } else {
      assert (m + n)[..BLOCK] == m[..BLOCK] && (m + n)[BLOCK..] == m[BLOCK..] + n;
      FoldAppend(process, process(s, m[..BLOCK]), m[BLOCK..], n);
    }
  }

  lemma FoldBlock<S>(process: (S, Bytes) -> S, s: S, m: Bytes, b: Bytes)
    requires |m| % BLOCK == 0 && |b| == BLOCK
    ensures Fold(process, s, m + b) == process(Fold(process, s, m), b)
  {
    FoldAppend(process, s, m, b);
    assert b[..BLOCK] == b && b[BLOCK..] == [];
  }

  // ----- the bit counter -----

  /** `length << 3` in 64 bits. */
  function Bits64(n: nat): nat {
    (8 * n) % WORD64
  }

  /** The low word of the counter after `n` more bytes. */
  function CountLow(total0: nat, n: nat): nat {
    (total0 + Bits64(n)) % WORD64 % INT32_SPAN
  }

  /** The high word: the part of the length that does not fit below, and a carry test. */
  function CountHigh(total0: nat, total1: nat, n: nat): nat {
    var high := (total1 + n / 0x2000_0000) % WORD64;
    (high + (if CountLow(total0, n) < Bits64(n) then 1 else 0)) % WORD64
  }

  /**
   The two words hold the 64-bit count `bits` that section 3.2 of RFC 1321 asks for, but for `excess`
   too many in the high one.
   */
  predicate CountsUpTo(total0: nat, total1: nat, bits: nat, excess: nat) {
    total0 == bits % INT32_SPAN && total1 % INT32_SPAN == (bits / INT32_SPAN + excess) % INT32_SPAN
  }

  /** The two words hold the count exactly. */
  predicate Counts(total0: nat, total1: nat, bits: nat) {
    CountsUpTo(total0, total1, bits, 0)
  }

  lemma LowIsExact(total0: nat, n: nat, bits: nat)
    requires total0 == bits % INT32_SPAN
    ensures CountLow(total0, n) == (bits + 8 * n) % INT32_SPAN
  {
    var q, a, b := bits / INT32_SPAN, 8 * n / WORD64, (total0 + Bits64(n)) / WORD64;
    var x := (total0 + Bits64(n)) % WORD64;
    assert bits == q * INT32_SPAN + total0;
    assert 8 * n == a * WORD64 + Bits64(n) && total0 + Bits64(n) == b * WORD64 + x;
    SameRemainder(bits + 8 * n, x, q + (a + b) * INT32_SPAN);
  }

  lemma SameRemainder(m: int, n: int, q: int)
    requires m == n + q * INT32_SPAN
    ensures m % INT32_SPAN == n % INT32_SPAN
  {
  }

  /** Whether the 32-bit addition of the low words carries. */
  predicate Carries(total0: nat, n: nat) {
    total0 + (8 * n) % INT32_SPAN >= INT32_SPAN
  }

  /** A piece for which the carry test reports a carry that there is not. */
  predicate Overcounts(total0: nat, n: nat) {
    Bits64(n) >= INT32_SPAN && !Carries(total0, n)
  }

  /** The number of bits of a piece as two words. */
  lemma BitsOfPiece(n: nat, k: nat, r: nat)
    requires k == n / 0x2000_0000 && r == (8 * n) % INT32_SPAN
    ensures 8 * n == k * INT32_SPAN + r && Bits64(n) % INT32_SPAN == r
  {
    LowBits(n, k);
    var a := 8 * n / WORD64;
    assert 8 * n == a * WORD64 + Bits64(n);
    SameRemainder(8 * n, Bits64(n), a * INT32_SPAN);
  }

  lemma LowBits(n: nat, k: nat)
    requires k == n / 0x2000_0000
    ensures 8 * n == k * INT32_SPAN + (8 * n) % INT32_SPAN
  {
    var low := n % 0x2000_0000;
    assert n == k * 0x2000_0000 + low;
    SameRemainder(8 * n, 8 * low, k);
  }

  /** The low words add up with or without a carry. */
  lemma LowSum(total0: nat, n: nat, k: nat, r: nat)
    requires total0 < INT32_SPAN && 8 * n == k * INT32_SPAN + r && r == (8 * n) % INT32_SPAN
    ensures CountLow(total0, n) == if Carries(total0, n) then total0 + r - INT32_SPAN else total0 + r
  {
    hide CountLow;
    LowIsExact(total0, n, total0);
    SameRemainder(total0 + 8 * n, total0 + r, k);
  }

  lemma HighSum(total0: nat, n: nat, k: nat, r: nat, bits: nat)
    requires total0 == bits % INT32_SPAN && 8 * n == k * INT32_SPAN + r && r == (8 * n) % INT32_SPAN
    ensures (bits + 8 * n) / INT32_SPAN == bits / INT32_SPAN + k + (if Carries(total0, n) then 1 else 0)
  {
    var q := bits / INT32_SPAN;
    assert bits + 8 * n == (q + k) * INT32_SPAN + (total0 + r);
  }

  /** The test `total[0] < length << 3` reports every carry, and some that there are not. */
  lemma CarryTest(total0: nat, n: nat, r: nat)
    requires total0 < INT32_SPAN && r == (8 * n) % INT32_SPAN == Bits64(n) % INT32_SPAN
    requires CountLow(total0, n) == if Carries(total0, n) then total0 + r - INT32_SPAN else total0 + r
    ensures CountLow(total0, n) < Bits64(n) <==> Carries(total0, n) || Overcounts(total0, n)
  {
    hide CountLow;
    var q := Bits64(n) / INT32_SPAN;
    assert Bits64(n) == q * INT32_SPAN + r;
  }

  lemma HighWord(total1: nat, k: nat, c: nat)
    ensures ((total1 + k) % WORD64 + c) % WORD64 % INT32_SPAN == (total1 + k + c) % INT32_SPAN
  {
    var a := (total1 + k) / WORD64;
    assert total1 + k == a * WORD64 + (total1 + k) % WORD64;
    var x := ((total1 + k) % WORD64 + c) % WORD64;
    var b := ((total1 + k) % WORD64 + c) / WORD64;
    SameRemainder(total1 + k + c, x, (a + b) * INT32_SPAN);
  }

  lemma SameHighWord(t: nat, q: nat, k: nat)
    requires t % INT32_SPAN == q % INT32_SPAN
    ensures (t + k) % INT32_SPAN == (q + k) % INT32_SPAN
  {
    var a, b := t / INT32_SPAN, q / INT32_SPAN;
    SameRemainder(t + k, q + k, a - b);
  }

  /** What an update does to the counter: an overcounted piece adds one to the excess. */
  lemma CounterAfter(total0: nat, total1: nat, n: nat, bits: nat, excess: nat)
    requires CountsUpTo(total0, total1, bits, excess)
    ensures CountsUpTo(CountLow(total0, n), CountHigh(total0, total1, n), bits + 8 * n,
                       excess + (if Overcounts(total0, n) then 1 else 0))
  {
    var k, r := n / 0x2000_0000, (8 * n) % INT32_SPAN;
    var coded := if CountLow(total0, n) < Bits64(n) then 1 else 0;
    LowIsExact(total0, n, bits);
    BitsOfPiece(n, k, r);
    LowSum(total0, n, k, r);
    HighSum(total0, n, k, r, bits);
    CarryTest(total0, n, r);
    HighWord(total1, k, coded);
    SameHighWord(total1, bits / INT32_SPAN + excess, k + coded);
    hide CountLow, Bits64, Carries;
  }

  /** The count is exact when the excess is none, or a multiple of 2^32. */
  lemma ExcessIsNone(total0: nat, total1: nat, bits: nat, excess: nat)
    requires CountsUpTo(total0, total1, bits, excess)
    ensures Counts(total0, total1, bits) <==> excess % INT32_SPAN == 0
  {
    var q := bits / INT32_SPAN;
    var a, b := (q + excess) / INT32_SPAN, q / INT32_SPAN;
    if Counts(total0, total1, bits) {
      SameRemainder(excess, 0, a - b);
    }
    if excess % INT32_SPAN == 0 {
      SameRemainder(q + excess, q, excess / INT32_SPAN);
    }
  }

  /** One update keeps the count exact exactly when the piece is not overcounted. */
  lemma CounterIsExact(total0: nat, total1: nat, n: nat, bits: nat)
    requires Counts(total0, total1, bits)
    ensures Counts(CountLow(total0, n), CountHigh(total0, total1, n), bits + 8 * n) <==> !Overcounts(total0, n)
  {
    CounterAfter(total0, total1, n, bits, 0);
    hide CountLow, CountHigh, Overcounts, CountsUpTo;
    ExcessIsNone(CountLow(total0, n), CountHigh(total0, total1, n), bits + 8 * n,
                 if Overcounts(total0, n) then 1 else 0);
  }

  /** Short pieces are never overcounted. */
  lemma ShortPiece(total0: nat, n: nat)
    requires n < 0x2000_0000
    ensures !Overcounts(total0, n)
  {
  }

  /** The counter after a message fed in pieces; an empty piece leaves it alone. */
  function Totals(pieces: seq<Bytes>): (t: (nat, nat)) {
    if pieces == [] then (0, 0) else
    var (total0, total1) := Totals(pieces[..|pieces| - 1]);
    var n := |pieces[|pieces| - 1]|;
    if n == 0 then (total0, total1) else (CountLow(total0, n), CountHigh(total0, total1, n))
  }

  /** How many of the pieces are overcounted. */
  function Overcounted(pieces: seq<Bytes>): (k: nat)
    ensures k <= |pieces|
  {
    if pieces == [] then 0 else
    var init, n := pieces[..|pieces| - 1], |pieces[|pieces| - 1]|;
    Overcounted(init) + (if Overcounts(Totals(init).0, n) then 1 else 0)
  }

  lemma {:induction false} TotalsCount(pieces: seq<Bytes>)
    ensures CountsUpTo(Totals(pieces).0, Totals(pieces).1, 8 * |Flat(pieces)|, Overcounted(pieces))
  {
    if pieces == [] {
    } else {
      var init, last := pieces[..|pieces| - 1], pieces[|pieces| - 1];
      TotalsCount(init);
      FlatSnoc(init, last);
      assert pieces == init + [last];
      var (total0, total1) := Totals(init);
      hide CountsUpTo, CountLow, CountHigh, Overcounts, Flat;
      if last == [] {
        ShortPiece(total0, 0);
      } else {
        CounterAfter(total0, total1, |last|, 8 * |Flat(init)|, Overcounted(init));
        assert 8 * |Flat(init)| + 8 * |last| == 8 * |Flat(pieces)|;
      }
    }
  }

  /** Fewer than 2^32 pieces are counted exactly if and only if none of them is overcounted. */
  lemma TotalsAreExact(pieces: seq<Bytes>)
    requires |pieces| < INT32_SPAN
    ensures Counts(Totals(pieces).0, Totals(pieces).1, 8 * |Flat(pieces)|) <==> Overcounted(pieces) == 0
  {
    hide Totals, Overcounted, CountsUpTo, Counts, Flat;
    TotalsCount(pieces);
    ExcessIsNone(Totals(pieces).0, Totals(pieces).1, 8 * |Flat(pieces)|, Overcounted(pieces));
  }

  lemma {:induction false} ShortPieces(pieces: seq<Bytes>)
    requires forall i :: 0 <= i < |pieces| ==> |pieces[i]| < 0x2000_0000
    ensures Overcounted(pieces) == 0
  {
    if pieces == [] {
    } else {
      var init := pieces[..|pieces| - 1];
      ShortPieces(init);
      ShortPiece(Totals(init).0, |pieces[|pieces| - 1]|);
    }
  }

  lemma LeftIsTail(total0: nat, n: nat)
    requires total0 == (8 * n) % INT32_SPAN
    ensures total0 / 8 % BLOCK == n % BLOCK
  {
    var q := 8 * n / INT32_SPAN;
    assert 8 * n == q * INT32_SPAN + total0;
    assert total0 == 8 * (n - q * 0x2000_0000);
    SameTail(n - q * 0x2000_0000, n, q * 0x80_0000);
  }

  lemma SameTail(m: nat, n: nat, q: nat)
    requires n == m + q * BLOCK
    ensures m % BLOCK == n % BLOCK
  {
  }

  lemma TailLength(d: nat, t: nat)
    requires d % BLOCK == 0 && t < BLOCK
    ensures (d + t) % BLOCK == t
  {
  }

  // ----- padding -----

  /** How many bytes section 3.1 of RFC 1321 appends to a message of `n` bytes. */
  function PadLength(n: nat): (p: nat)
    ensures 1 <= p <= BLOCK && (n + p) % BLOCK == 56
  {
    if n % BLOCK < 56 then 56 - n % BLOCK else 120 - n % BLOCK
  }

  lemma PadLengthIsTheOnly(n: nat, p: nat)
    requires 1 <= p <= BLOCK && (n + p) % BLOCK == 56
    ensures p == PadLength(n)
  {
  }

  /** A one bit and zero bits, `p` bytes in all. */
  function Padding(p: nat): (b: Bytes)
    requires 1 <= p
    ensures |b| == p
  {
    [0x80] + seq(p - 1, _ => 0)
  }

  /** Section 3.2 of RFC 1321: `bits` modulo 2^64 as two words, the low-order one first. */
  function LengthField(bits: nat): (b: Bytes)
    ensures |b| == 8
  {
    Int32Bytes(bits) + Int32Bytes(bits / INT32_SPAN)
  }

  /** A message padded as sections 3.1 and 3.2 of RFC 1321 say. */
  function Padded(m: Bytes): Bytes {
    m + Padding(PadLength(|m|)) + LengthField(8 * |m|)
  }

  /** A message padded with the two words of a counter. */
  function PaddedWith(m: Bytes, total0: nat, total1: nat): Bytes {
    m + Padding(PadLength(|m|)) + (Int32Bytes(total0) + Int32Bytes(total1))
  }

  /** A padded message is a whole number of blocks. */
  lemma PaddedIsWhole(m: Bytes, total0: nat, total1: nat)
    ensures |PaddedWith(m, total0, total1)| % BLOCK == 0
  {
    assert |PaddedWith(m, total0, total1)| == |m| + PadLength(|m|) + 8;
  }

  lemma SamePrefix<T>(m: seq<T>, x: seq<T>, y: seq<T>)
    ensures m + x == m + y <==> x == y
  {
    assert (m + x)[|m|..] == x && (m + y)[|m|..] == y;
  }

  lemma SamePairs<T>(a: seq<T>, b: seq<T>, c: seq<T>, d: seq<T>)
    requires |a| == |c|
    ensures a + b == c + d <==> a == c && b == d
  {
    assert (a + b)[..|a|] == a && (c + d)[..|c|] == c;
    assert (a + b)[|a|..] == b && (c + d)[|c|..] == d;
  }

  /** The padding the code appends is the RFC's exactly when its counter holds the bit count. */
  lemma PaddingIsExact(m: Bytes, total0: nat, total1: nat)
    requires total0 < INT32_SPAN
    ensures PaddedWith(m, total0, total1) == Padded(m) <==> Counts(total0, total1, 8 * |m|)
  {
    hide Int32Bytes, Padding, PadLength;
    var bits := 8 * |m|;
    SamePrefix(m + Padding(PadLength(|m|)), Int32Bytes(total0) + Int32Bytes(total1), LengthField(bits));
    SamePairs(Int32Bytes(total0), Int32Bytes(total1), Int32Bytes(bits), Int32Bytes(bits / INT32_SPAN));
    Int32BytesExactly(total0, bits);
    Int32BytesExactly(total1, bits / INT32_SPAN);
  }

  /** The counter after a single piece: right exactly if its bits, in 64-bit arithmetic, are fewer than 2^32. */
  lemma SinglePieceCount(n: nat)
    ensures Counts(CountLow(0, n), CountHigh(0, 0, n), 8 * n) <==> Bits64(n) < INT32_SPAN
    ensures n < 0x2000_0000_0000_0000 ==> (Bits64(n) < INT32_SPAN <==> n < 0x2000_0000)
  {
    hide CountLow, CountHigh, Bits64;
    NothingCounted();
    CounterIsExact(0, 0, n, 0);
    NoCarryFromZero(n);
  }

  lemma NothingCounted()
    ensures Counts(0, 0, 0)
  {
  }

  lemma NoCarryFromZero(n: nat)
    ensures !Carries(0, n)
    ensures n < 0x2000_0000_0000_0000 ==> (Bits64(n) < INT32_SPAN <==> n < 0x2000_0000)
  {
  }

  // ----- the context -----

  class Md5Context<S> {
    const process: (S, Bytes) -> S
    const start: S
    const buffer: array<Byte>
    var total0: nat
    var total1: nat
    var state: S
    /** What has been fed in so far: the blocks already processed, and what is left over. */
    ghost var done: Bytes
    ghost var tail: Bytes

    ghost function Message(): Bytes
      reads this
    {
      done + tail
    }

    /** The state and the buffer account for everything fed in. */
    ghost predicate Aligned()
      reads this, buffer
    {
      && buffer.Length == BLOCK
      && |done| % BLOCK == 0 && |tail| < BLOCK
      && state == Fold(process, start, done)
      && buffer[..|tail|] == tail
    }

    ghost predicate Valid()
      reads this, buffer
    {
      Aligned() && total0 == (8 * |Message()|) % INT32_SPAN
    }

    /** `md5_starts`. */
    constructor (process: (S, Bytes) -> S, start: S)
      ensures Valid() && fresh(buffer) && Message() == [] && total0 == total1 == 0
      ensures this.process == process && this.start == start
    {
      this.process, this.start := process, start;
      total0, total1, state := 0, 0, start;
      buffer := new Byte[BLOCK];
      done, tail := [], [];
    }

    /** `memcpy` into the buffer, after what it holds. */
    method Memcpy(left: nat, bytes: Bytes)
      requires left + |bytes| <= buffer.Length
      modifies buffer
      ensures buffer[..left + |bytes|] == old(buffer[..left]) + bytes
    {
      forall i | 0 <= i < |bytes| {
        buffer[left + i] := bytes[i];
      }
    }

    /** `md5_process` on one more block. */
    method Process(block: Bytes)
      requires |block| == BLOCK && |done| % BLOCK == 0 && state == Fold(process, start, done)
      modifies this`state, this`done
      ensures done == old(done) + block && |done| % BLOCK == 0 && state == Fold(process, start, done)
    {
      FoldBlock(process, start, done, block);
      state := process(state, block);
      done := done + block;
    }

    /** The loop of `md5_update` over whole blocks; it returns what does not fill one. */
    method ProcessBlocks(input: Bytes) returns (rest: Bytes)
      requires |done| % BLOCK == 0 && state == Fold(process, start, done)
      modifies this`state, this`done
      ensures |done| % BLOCK == 0 && state == Fold(process, start, done)
      ensures |rest| < BLOCK && done + rest == old(done) + input
    {
      rest := input;
      while |rest| >= BLOCK
        invariant |done| % BLOCK == 0 && state == Fold(process, start, done)
        invariant done + rest == old(done) + input
        decreases |rest|
      {
        assert rest == rest[..BLOCK] + rest[BLOCK..];
        Process(rest[..BLOCK]);
        rest := rest[BLOCK..];
      }
    }

    /** The counter statements of `md5_update`. */
    method Count(length: nat)
      modifies this`total0, this`total1
      ensures total0 == CountLow(old(total0), length)
      ensures total1 == CountHigh(old(total0), old(total1), length)
    {
      var bits := Bits64(length);
      total0 := (total0 + bits) % WORD64;
      total1 := (total1 + length / 0x2000_0000) % WORD64;
      total0 := total0 % INT32_SPAN;
      total1 := (total1 + (if total0 < bits then 1 else 0)) % WORD64;
    }

    /** A partly filled buffer is filled up and processed. */
    method TopUp(left: nat, head: Bytes)
      requires Aligned() && left == |tail| && left + |head| == BLOCK
      modifies this`state, this`done, this`tail, buffer
      ensures Aligned() && tail == [] && done == old(Message()) + head
    {
      Memcpy(left, head);
      assert buffer[..] == buffer[..BLOCK];
      Process(buffer[..]);
      tail := [];
      assert old(done) + (old(tail) + head) == old(Message()) + head;
    }

    /** The copying and processing of `md5_update`. */
    method Absorb(input: Bytes, buffered: nat)
      requires Aligned() && buffered == |tail|
      modifies this`state, this`done, this`tail, buffer
      ensures Aligned() && Message() == old(Message()) + input
    {
      hide Fold;
      var left := buffered;
      var fill := BLOCK - left;
      var rest := input;
      if left != 0 && |input| >= fill {
        TopUp(left, input[..fill]);
        left := 0;
        rest := input[fill..];
        assert done + rest == old(Message()) + input;
      } else if left == 0 {
        assert done + rest == old(Message()) + input;
      }
      if left == 0 {
        rest := ProcessBlocks(rest);
      }
      if |rest| > 0 {
        Memcpy(left, rest);
      }
      assert done + (tail + rest) == old(Message()) + input;
      tail := tail + rest;
    }

    /** `( ctx->total[0] >> 3 ) & 0x3F` is how much of the buffer is filled. */
    method Buffered() returns (left: nat)
      requires Valid()
      ensures left == |tail| == |Message()| % BLOCK
    {
      left := total0 / 8 % BLOCK;
      LeftIsTail(total0, |Message()|);
      TailLength(|done|, |tail|);
    }

    /** `md5_update`. */
    method Update(input: Bytes)
      requires Valid()
      modifies this, buffer
      ensures Valid() && Message() == old(Message()) + input
      ensures input != [] ==> total1 == CountHigh(old(total0), old(total1), |input|)
      ensures input == [] ==> total1 == old(total1)
    {
      if |input| == 0 {
        assert Message() + input == Message();
        return;
      }
      var left := Buffered();
      ghost var bits := 8 * |Message()|;
      LowIsExact(total0, |input|, bits);
      Count(|input|);
      Absorb(input, left);
      assert bits + 8 * |input| == 8 * |Message()|;
    }

    /** `md5_finish`, up to the output of the state: the padding, then the count of the message. */
    method Finish()
      requires Valid()
      modifies this, buffer
      ensures state == Fold(process, start, PaddedWith(old(Message()), old(total0), old(total1)))
    {
      var msglen := Int32Bytes(total0) + Int32Bytes(total1);
      var last := Buffered();
      var padn := if last < 56 then 56 - last else 120 - last;
      ghost var padded := PaddedWith(Message(), total0, total1);
      assert padded == Message() + Padding(padn) + msglen;
      PaddedIsWhole(Message(), total0, total1);
      Update(Padding(padn));
      Update(msglen);
      assert Message() == padded;
      TailLength(|done|, |tail|);
      assert done == done + tail;
    }
  }
}
