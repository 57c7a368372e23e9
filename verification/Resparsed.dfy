/** Splitting an image over several sparse files, writing each and reading each back: nothing of
    the image is lost. */
module Resparsed {
  import opened Words
  import opened Blocks
  import opened Queue
  import opened Resparse
  import opened SparseFormat
  import opened SparseWriter
  import opened SparseReader

  /** Padded to whole blocks, a is a part of b. */
  ghost predicate PaddedPiece(g: Geometry, a: Block, b: Block)
    requires g.bs > 0
  {
    && Start(g, b) <= Start(g, a) && Start(g, a) + AlignUp(a.len, g.bs) <= Start(g, b) + AlignUp(b.len, g.bs)
    && (a.backing.Fill? <==> b.backing.Fill?) && (a.backing.Fill? ==> a.backing == b.backing)
  }

  /** Every block of t is a part of one of s. */
  ghost predicate PiecesOf(g: Geometry, t: seq<Block>, s: seq<Block>)
    requires g.bs > 0
  {
    forall i :: 0 <= i < |t| ==> PieceOfSome(g, t[i], s)
  }

  ghost predicate PieceOfSome(g: Geometry, a: Block, s: seq<Block>)
    requires g.bs > 0
  {
    exists j :: 0 <= j < |s| && PaddedPiece(g, a, s[j])
  }

  lemma MemberPiece(g: Geometry, s: seq<Block>, i: nat)
    requires g.bs > 0 && i < |s|
    ensures PieceOfSome(g, s[i], s)
  {
    hide AlignUp;
    assert PaddedPiece(g, s[i], s[i]);
  }

  lemma PieceTrans(g: Geometry, a: Block, t: seq<Block>, s: seq<Block>)
    requires g.bs > 0 && PieceOfSome(g, a, t) && PiecesOf(g, t, s)
    ensures PieceOfSome(g, a, s)
  {
    hide AlignUp;
    var j :| 0 <= j < |t| && PaddedPiece(g, a, t[j]);
    assert PieceOfSome(g, t[j], s);
    var k :| 0 <= k < |s| && PaddedPiece(g, t[j], s[k]);
    assert PaddedPiece(g, a, s[k]);
  }

  lemma PiecesTrans(g: Geometry, u: seq<Block>, t: seq<Block>, s: seq<Block>)
    requires g.bs > 0 && PiecesOf(g, u, t) && PiecesOf(g, t, s)
    ensures PiecesOf(g, u, s)
  {
    hide PieceOfSome;
    forall i | 0 <= i < |u| ensures PieceOfSome(g, u[i], s) {
      PieceTrans(g, u[i], t, s);
    }
  }

  /** Cutting whole blocks off the front cuts as much off the padded length. */
  lemma AlignRest(x: nat, q: nat, bs: nat)
    requires bs > 0 && q * bs < x
    ensures AlignUp(x - q * bs, bs) + q * bs == AlignUp(x, bs) && AlignUp(q * bs, bs) == q * bs <= AlignUp(x, bs)
  {
    MulMonotone(0, q, bs);
    RoundIs(q * bs, q, bs);
    var e := DivRoundUp(x - q * bs, bs);
    assert (e + q) * bs == e * bs + q * bs;
    RoundIs(x, e + q, bs);
  }

  /** There is only one multiple to round to. */
  lemma RoundIs(x: nat, d: nat, bs: nat)
    requires bs > 0 && x <= d * bs < x + bs
    ensures AlignUp(x, bs) == d * bs
  {
    var e := DivRoundUp(x, bs);
    hide DivRoundUp;
    BlockOrder(d, e, bs);
    BlockOrder(e, d, bs);
  }

  lemma SplitPieces(g: Geometry, b: Block, maxLen: nat)
    requires g.Valid()
    ensures var (first, rest) := Split(g.bs, b, maxLen);
            PaddedPiece(g, first, b) && (rest.Some? ==> PaddedPiece(g, rest.value, b))
  {
    SplitFacts(g, b, maxLen);
    var q := maxLen / g.bs;
    if b.len > q * g.bs {
      AlignRest(b.len, q, g.bs);
    }
  }

  /** A round makes pieces. */
  lemma RoundPieces(g: Geometry, s: seq<Block>, maxLen: nat)
    requires g.Valid()
    ensures var r := MoveChunks(g.bs, s, maxLen); PiecesOf(g, r.moved, s) && PiecesOf(g, r.rest, s)
  {
    hide PaddedPiece, Split, Cut, Splits, SplitRoom, BodyLength;
    forall i | 0 <= i < |s| ensures PieceOfSome(g, s[i], s) {
      MemberPiece(g, s, i);
    }
    var len := Budget(maxLen);
    var k := Cut(g.bs, len, s, 0);
    hide PieceOfSome;
    if k < |s| && Splits(g.bs, len, s, k) {
      SplitRoundPieces(g, s, k, SplitRoom(g.bs, len, s, k));
    }
  }

  lemma SplitRoundPieces(g: Geometry, s: seq<Block>, k: nat, room: nat)
    requires g.Valid() && k < |s| && PiecesOf(g, s, s)
    ensures var (first, rest) := Split(g.bs, s[k], room);
            && PiecesOf(g, s[..k] + [first], s)
            && PiecesOf(g, (match rest case None => [] case Some(r) => [r]) + s[k + 1..], s)
  {
    hide PaddedPiece, Split;
    SplitPieces(g, s[k], room);
    var (first, rest) := Split(g.bs, s[k], room);
    assert PieceOfSome(g, first, s) && (rest.Some? ==> PieceOfSome(g, rest.value, s));
    hide PieceOfSome;
    PiecesJoined(g, s[..k], [first], s);
    PiecesJoined(g, match rest { case None => [] case Some(r) => [r] }, s[k + 1..], s);
  }

  lemma PiecesJoined(g: Geometry, a: seq<Block>, b: seq<Block>, s: seq<Block>)
    requires g.bs > 0 && PiecesOf(g, a, s) && PiecesOf(g, b, s)
    ensures PiecesOf(g, a + b, s)
  {
    hide PieceOfSome;
  }

  lemma {:induction false} FilePieces(g: Geometry, s: seq<Block>, maxLen: nat, i: nat)
    requires g.Valid() && Terminates(g.bs, s, maxLen) && i < |Files(g.bs, s, maxLen)|
    ensures PiecesOf(g, Files(g.bs, s, maxLen)[i], s)
    decreases TotalLen(s), |s|
  {
    hide MoveChunks, PiecesOf;
    var r := MoveChunks(g.bs, s, maxLen);
    RoundPieces(g, s, maxLen);
    if i > 0 {
      RoundProgress(g.bs, s, maxLen);
      FilePieces(g, r.rest, maxLen, i - 1);
      PiecesTrans(g, Files(g.bs, r.rest, maxLen)[i - 1], r.rest, s);
    }
  }

  lemma PiecesFit(g: Geometry, t: seq<Block>, s: seq<Block>)
    requires g.bs > 0 && PiecesOf(g, t, s) && ChunksFit(g.bs, s)
    ensures ChunksFit(g.bs, t)
  {
    hide AlignUp;
    forall i | 0 <= i < |t| ensures ChunkFits(g.bs, t[i]) {
      assert PieceOfSome(g, t[i], s);
      var j :| 0 <= j < |s| && PaddedPiece(g, t[i], s[j]);
      assert ChunkFits(g.bs, s[j]);
    }
  }

  lemma PiecesRuns(g: Geometry, t: seq<Block>, s: seq<Block>)
    requires g.bs > 0 && PiecesOf(g, t, s) && RunsBelow(g, PaddedFills(g, s), B32)
    ensures RunsBelow(g, PaddedFills(g, t), B32)
  {
    hide AlignUp;
    var a, b := PaddedFills(g, t), PaddedFills(g, s);
    forall src, o | Supplies(g, a, src, o) ensures Supplies(g, b, src, o) {
      var i :| 0 <= i < |a| && SourceOf(g, a[i]) == Some(src) && Covers(g, a[i], o);
      assert PieceOfSome(g, t[i], s);
      var j :| 0 <= j < |s| && PaddedPiece(g, t[i], s[j]);
      assert SourceOf(g, b[j]) == Some(src) && Covers(g, b[j], o);
    }
    RunsBelowWithin(g, a, b, B32);
  }

  /** Padding does not reach into the next block. */
  lemma PaddedBefore(g: Geometry, a: Block, b: Block)
    requires g.Valid() && Before(g, a, b)
    ensures Start(g, a) + AlignUp(a.len, g.bs) <= Start(g, b)
  {
    NextBoundary(a.block, b.block, DivRoundUp(a.len, g.bs), a.len, g.bs);
  }

  lemma NextBoundary(p: nat, q: nat, d: nat, len: nat, bs: nat)
    requires bs > 0 && p * bs + len <= q * bs && d * bs < len + bs
    ensures p * bs + d * bs <= q * bs
  {
    assert (p + d) * bs == p * bs + d * bs;
    if q < p + d {
      BlockOrder(q, p + d, bs);
    } else {
      BlockOrder(p + d, q, bs);
    }
  }

  /** Where there is a byte, padding does not change it. */
  lemma {:induction false} PaddedKeeps(g: Geometry, s: seq<Block>, o: int, i: nat)
    requires g.Valid() && StrictlyOrdered(g, s) && i < |s| && Covers(g, s[i], o)
    ensures PaddedAt(g, s, o) == At(g, s, o) == ByteOf(g, s[i], o)
  {
    hide AlignUp;
    OrderedWhenStrict(g, s);
    AtWitness(g, s, o, i);
    if i > 0 {
      PaddedBefore(g, s[0], s[i]);
      assert s[1..][i - 1] == s[i];
      PaddedKeeps(g, s[1..], o, i - 1);
      OrderedWhenStrict(g, s[1..]);
      AtWitness(g, s[1..], o, i - 1);
    } else {
      LenPadded(s[0].len, g.bs);
    }
  }

  lemma LenPadded(len: nat, bs: nat)
    requires bs > 0
    ensures len <= AlignUp(len, bs)
  {
  }

  /** Every file of a resparsed image, written and imported again, supplies its bytes of the image;
      for every limit with which resparsing ends. */
  lemma ResparsedReadsBack(g: Geometry, s: seq<Block>, maxLen: nat, len: nat, fd: int, i: nat)
    requires g.Valid() && Terminates(g.bs, s, maxLen) && StrictlyOrdered(g, s) && Inside(g, s, len)
    requires len % g.bs == 0 && len / g.bs < 0x8000_0000 && ChunksFit(g.bs, s) && RunsBelow(g, PaddedFills(g, s), B32)
    requires i < |Files(g.bs, s, maxLen)|
    ensures var file := Files(g.bs, s, maxLen)[i];
            var buf := SparseBytes(g, len, file);
            var r := ImportOf(buf, fd);
            && r.NewFile? && r.bs == g.bs && r.len == len && ReadsBack(g, file, buf, fd, r.adds)
            && forall o :: At(g, file, o).Some? ==> At(Through(g, buf, fd), EnqueueAll(r.bs, r.adds), o) == At(g, s, o)
  {
    hide Files, StrictlyOrdered, Inside, InsideButLast, ChunksFit, RunsBelow, PiecesOf, SparseBytes, ImportOf, At, PaddedAt, AllMirror,
         EnqueueAll, Ordered;
    var file := Files(g.bs, s, maxLen)[i];
    OrderedWhenStrict(g, s);
    FilesWellFormed(g, s, maxLen, len, i);
    FilePieces(g, s, maxLen, i);
    PiecesFit(g, file, s);
    PiecesRuns(g, file, s);
    SparseRoundTrip(g, file, len, fd);
    forall o | At(g, file, o).Some? ensures PaddedAt(g, file, o) == At(g, s, o) {
      PaddedSome(g, file, o);
      ResparseConserves(g, s, maxLen, |Files(g.bs, s, maxLen)|, o);
    }
  }

  lemma PaddedSome(g: Geometry, s: seq<Block>, o: int)
    requires g.Valid() && StrictlyOrdered(g, s) && At(g, s, o).Some?
    ensures PaddedAt(g, s, o) == At(g, s, o)
  {
    if forall i :: 0 <= i < |s| ==> !Covers(g, s[i], o) {
      AtNone(g, s, o);
    } else {
      var i :| 0 <= i < |s| && Covers(g, s[i], o);
      PaddedKeeps(g, s, o, i);
    }
  }
}
