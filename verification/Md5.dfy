/** The digests `Md5.cpp` computes are those of RFC 1321. */
module Md5 {
  import opened Bytes
  import opened Md5Program
  import opened Md5Stream
  import opened Md5Rfc

  lemma OutputFollowsRfc(padded: Bytes)
    ensures CodeBytes(Fold(CodeTransform, CodeInit(), padded)) == RfcBytes(Fold(RfcTransform, RfcInit(), padded))
  {
    InitsAgree();
    FoldFollowsRfc(CodeInit(), padded);
    BytesFollowRfc(Fold(CodeTransform, CodeInit(), padded));
  }

  /** The counter of a context is the bit count of what was fed in. */
  ghost predicate Exact(ctx: Md5Context<State<bv64>>)
    reads ctx
  {
    Counts(ctx.total0, ctx.total1, 8 * |ctx.Message()|)
  }

  /** `md5_finish`. */
  method Finish(ctx: Md5Context<State<bv64>>) returns (digest: Bytes)
    requires ctx.Valid() && ctx.process == CodeTransform && ctx.start == CodeInit()
    modifies ctx, ctx.buffer
    ensures digest == DigestWith(old(ctx.Message()), old(ctx.total0), old(ctx.total1))
    ensures old(Exact(ctx)) ==> digest == RfcDigest(old(ctx.Message()))
  {
    PaddingIsExact(ctx.Message(), ctx.total0, ctx.total1);
    OutputFollowsRfc(PaddedWith(ctx.Message(), ctx.total0, ctx.total1));
    ctx.Finish();
    digest := CodeBytes(ctx.state);
  }

  /** `md5_update`: whatever the length, the counter is brought forward as the code does. */
  method Update(ctx: Md5Context<State<bv64>>, ghost before: seq<Bytes>, piece: Bytes)
    requires ctx.Valid() && ctx.Message() == Flat(before) && (ctx.total0, ctx.total1) == Totals(before)
    modifies ctx, ctx.buffer
    ensures ctx.Valid() && ctx.Message() == Flat(before + [piece])
    ensures (ctx.total0, ctx.total1) == Totals(before + [piece])
  {
    FlatSnoc(before, piece);
    ghost var pieces := before + [piece];
    assert pieces[..|pieces| - 1] == before;
    LowIsExact(ctx.total0, |piece|, 8 * |ctx.Message()|);
    ctx.Update(piece);
  }

  /** A message fed in pieces gets the padding of the RFC exactly when none of them is overcounted. */
  lemma PiecesArePaddedExactly(pieces: seq<Bytes>)
    requires |pieces| < INT32_SPAN
    ensures PaddedWith(Flat(pieces), Totals(pieces).0, Totals(pieces).1) == Padded(Flat(pieces))
       <==> Overcounted(pieces) == 0
  {
    hide Totals, Overcounted, Flat, PaddedWith, Padded;
    TotalsCount(pieces);
    TotalsAreExact(pieces);
    PaddingIsExact(Flat(pieces), Totals(pieces).0, Totals(pieces).1);
  }

  /**
   A message fed in any pieces: if none of them is overcounted, and pieces under 2^29 bytes never are,
   the digest is the RFC's.
   */
  method DigestOfPieces(pieces: seq<Bytes>) returns (digest: Bytes)
    ensures digest == DigestWith(Flat(pieces), Totals(pieces).0, Totals(pieces).1)
    ensures Overcounted(pieces) == 0 ==> digest == RfcDigest(Flat(pieces))
    ensures (forall i :: 0 <= i < |pieces| ==> |pieces[i]| < 0x2000_0000) ==> digest == RfcDigest(Flat(pieces))
  {
    hide Totals, Overcounted, CountsUpTo, Flat;
    NothingFed();
    assert pieces[..0] == [];
    var ctx := new Md5Context(CodeTransform, CodeInit());
    for i := 0 to |pieces|
      invariant ctx.Valid() && fresh(ctx) && fresh(ctx.buffer)
      invariant ctx.process == CodeTransform && ctx.start == CodeInit()
      invariant ctx.Message() == Flat(pieces[..i]) && (ctx.total0, ctx.total1) == Totals(pieces[..i])
    {
      Update(ctx, pieces[..i], pieces[i]);
      assert pieces[..i + 1] == pieces[..i] + [pieces[i]];
    }
    assert pieces[..|pieces|] == pieces;
    CountedPieces(pieces);
    if forall i :: 0 <= i < |pieces| ==> |pieces[i]| < 0x2000_0000 {
      ShortPieces(pieces);
    }
    digest := Finish(ctx);
  }

  lemma NothingFed()
    ensures Totals([]) == (0, 0) && Flat<Byte>([]) == []
  {
  }

  lemma CountedPieces(pieces: seq<Bytes>)
    ensures Overcounted(pieces) == 0 ==> Counts(Totals(pieces).0, Totals(pieces).1, 8 * |Flat(pieces)|)
  {
    hide Totals, Overcounted, Flat, CountsUpTo;
    TotalsCount(pieces);
  }

  /** What a message fed in one piece is padded with: the RFC's padding exactly for less than 2^29 bytes. */
  lemma OnePieceIsPaddedExactly(m: Bytes)
    requires |m| < 0x2000_0000_0000_0000
    ensures PaddedWith(m, CountLow(0, |m|), CountHigh(0, 0, |m|)) == Padded(m) <==> |m| < 0x2000_0000
  {
    LowIsExact(0, |m|, 0);
    SinglePieceCount(|m|);
    PaddingIsExact(m, CountLow(0, |m|), CountHigh(0, 0, |m|));
  }

  /**
   `GenerateMD5`: one piece.  The digest is the RFC's for buffers under 2^29 bytes; a longer one is
   padded with the two words of a counter that is off.
   */
  method GenerateMD5(buffer: Bytes) returns (digest: Bytes)
    requires |buffer| < INT32_LIMIT
    ensures digest == DigestWith(buffer, CountLow(0, |buffer|), CountHigh(0, 0, |buffer|))
    ensures |buffer| < 0x2000_0000 ==> digest == RfcDigest(buffer)
  {
    hide CountLow, CountHigh, Bits64, CountsUpTo;
    var ctx := new Md5Context(CodeTransform, CodeInit());
    UpdateFirst(ctx, buffer);
    SinglePieceCount(|buffer|);
    digest := Finish(ctx);
  }

  method UpdateFirst(ctx: Md5Context<State<bv64>>, buffer: Bytes)
    requires ctx.Valid() && ctx.Message() == [] && ctx.total0 == ctx.total1 == 0
    modifies ctx, ctx.buffer
    ensures ctx.Valid() && ctx.Message() == buffer
    ensures ctx.total0 == CountLow(0, |buffer|) && ctx.total1 == CountHigh(0, 0, |buffer|)
  {
    LowIsExact(0, |buffer|, 0);
    ctx.Update(buffer);
    assert [] + buffer == buffer;
  }
}
