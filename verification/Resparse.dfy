/** Splitting a sparse file into files of bounded size: the greedy rounds of
    move_chunks_up_to_len and the loop of sparse_file_resparse, on lists of values. */
module Resparse {
  import opened Words
  import opened Blocks

  const SPARSE_HEADER_LEN := 28
  const CHUNK_HEADER_LEN := 12
  /** Sparse header, end skip chunk, CRC chunk header and CRC. */
  const OVERHEAD := SPARSE_HEADER_LEN + 2 * CHUNK_HEADER_LEN + 4

  /** The first block behind b. */
  function EndBlock(bs: nat, b: Block): nat
    requires bs > 0
  {
    b.block + DivRoundUp(b.len, bs)
  }

  function LastBlock(bs: nat, s: seq<Block>): nat
    requires bs > 0
  {
    if s == [] then 0 else EndBlock(bs, s[|s| - 1])
  }

  /** Bytes of the skip chunk needed in front of b. */
  function GapLength(b: Block, lastBlock: nat): nat
  {
    if b.block > lastBlock then CHUNK_HEADER_LEN else 0
  }

  /** Bytes of the chunk written for b. */
  function ChunkLength(bs: nat, b: Block): nat
    requires bs > 0
  {
    CHUNK_HEADER_LEN + if b.backing.Fill? then 4 else AlignUp(b.len, bs)
  }

  /** Bytes of all chunks up to the last block of the list. */
  function BodyLength(bs: nat, s: seq<Block>): nat
    requires bs > 0
  {
    if s == [] then 0
    else
      var init, b := s[..|s| - 1], s[|s| - 1];
      BodyLength(bs, init) + GapLength(b, LastBlock(bs, init)) + ChunkLength(bs, b)
  }

  /** The length of the sparse form of an image of `total` blocks, without CRC. */
  function FileLength(bs: nat, total: nat, s: seq<Block>): nat
    requires bs > 0
  {
    SPARSE_HEADER_LEN + BodyLength(bs, s) + if LastBlock(bs, s) < total then CHUNK_HEADER_LEN else 0
  }

  lemma BodyLengthStep(bs: nat, s: seq<Block>, i: nat)
    requires bs > 0 && i < |s|
    ensures BodyLength(bs, s[..i + 1])
         == BodyLength(bs, s[..i]) + GapLength(s[i], LastBlock(bs, s[..i])) + ChunkLength(bs, s[i])
  {
    assert s[..i + 1][..i] == s[..i];
  }

  // ------------------------------------------------------------ one round

  /** What one call of move_chunks_up_to_len leaves: the blocks moved to the new file, the
      blocks that stay, and whether it was stopped by the limit. */
  datatype Round = Round(moved: seq<Block>, rest: seq<Block>, more: bool)

  /** The first block that does not fit, searching from i. */
  function Cut(bs: nat, len: int, s: seq<Block>, i: nat): (k: nat)
    requires bs > 0 && i <= |s|
    ensures i <= k <= |s|
    ensures forall j :: i < j <= k ==> BodyLength(bs, s[..j]) <= len
    ensures k < |s| ==> BodyLength(bs, s[..k + 1]) > len
    decreases |s| - i
  {
    if i == |s| || BodyLength(bs, s[..i + 1]) > len then i else Cut(bs, len, s, i + 1)
  }

  /** The block at the cut is split when it is the first, or when more than 1/8 of the limit
      is still free. */
  predicate Splits(bs: nat, len: int, s: seq<Block>, k: nat)
    requires bs > 0 && k <= |s|
  {
    k == 0 || len - (BodyLength(bs, s[..k]) + CHUNK_HEADER_LEN) > len / 8
  }

  /** What the limit leaves for chunks, in unsigned 32-bit arithmetic: limits below the overhead
      wrap around. */
  function Budget(maxLen: nat): (len: nat)
    ensures len < B32
    ensures OVERHEAD <= maxLen < B32 ==> len == maxLen - OVERHEAD
    ensures maxLen < OVERHEAD ==> len == B32 - OVERHEAD + maxLen
  {
    (maxLen - OVERHEAD) % B32
  }

  /** The length handed to backed_block_split: what is left behind one chunk header, converted to
      unsigned. */
  function SplitRoom(bs: nat, len: nat, s: seq<Block>, k: nat): (room: nat)
    requires bs > 0 && k <= |s|
    ensures room < B32
  {
    (len - (BodyLength(bs, s[..k]) + CHUNK_HEADER_LEN)) % B32
  }

  function MoveChunks(bs: nat, s: seq<Block>, maxLen: nat): Round
    requires bs > 0
  {
    var len := Budget(maxLen);
    var k := Cut(bs, len, s, 0);
    if k == |s| then Round(s, [], false)
    else if Splits(bs, len, s, k) then
      var (first, rest) := Split(bs, s[k], SplitRoom(bs, len, s, k));
      Round(s[..k] + [first], (match rest case None => [] case Some(r) => [r]) + s[k + 1..], true)
    else Round(s[..k], s[k..], true)
  }

  /** When a block is cut: every file but the last either ends with a whole block and uses, with one
      more chunk header, at least seven eighths of what the limit leaves for chunks, or ends with a
      proper piece of a block, before which less than that was used, or nothing at all. */
  lemma CutBelowSevenEighths(bs: nat, s: seq<Block>, maxLen: nat)
    requires bs > 0 && OVERHEAD + CHUNK_HEADER_LEN <= maxLen < B32
    ensures var r := MoveChunks(bs, s, maxLen); r.more ==> EndsWhole(bs, s, r, maxLen - 56) || EndsWithPiece(bs, s, r, maxLen - 56)
  {
    var r, len := MoveChunks(bs, s, maxLen), Budget(maxLen);
    var k := Cut(bs, len, s, 0);
    hide BodyLength, Split, Cut, SplitRoom, EndsWhole, EndsWithPiece;
    if k < |s| {
      Eighth(len, BodyLength(bs, s[..k]) + CHUNK_HEADER_LEN);
      if Splits(bs, len, s, k) {
        SplitDivides(bs, s, k, SplitRoom(bs, len, s, k), r);
        hide MoveChunks, PieceMoved;
        if r.moved == s[..k + 1] && r.rest == s[k + 1..] {
          WholeEnd(bs, s, r, k + 1, len);
        } else {
          PieceEnd(bs, s, r, k, len);
        }
      } else {
        WholeEnd(bs, s, r, k, len);
      }
    }
  }

  /** The moved blocks are whole, and fill most of the room for chunks. */
  ghost predicate EndsWhole(bs: nat, s: seq<Block>, r: Round, room: nat)
    requires bs > 0
  {
    |r.moved| > 0 && r.moved + r.rest == s && 8 * (BodyLength(bs, r.moved) + 12) >= 7 * room
  }

  /** The last one is a piece, and those before it, if there are any, leave more than that. */
  ghost predicate EndsWithPiece(bs: nat, s: seq<Block>, r: Round, room: nat)
    requires bs > 0
  {
    && r.rest != [] && PieceMoved(bs, s, r, |r.moved| - 1)
    && (|r.moved| > 1 ==> 8 * (BodyLength(bs, r.moved[..|r.moved| - 1]) + 12) < 7 * room)
  }

  lemma WholeEnd(bs: nat, s: seq<Block>, r: Round, k: nat, room: nat)
    requires bs > 0 && 0 < k <= |s| && r.moved == s[..k] && r.rest == s[k..] && 8 * (BodyLength(bs, s[..k]) + 12) >= 7 * room
    ensures EndsWhole(bs, s, r, room)
  {
    hide BodyLength;
  }

  lemma PieceEnd(bs: nat, s: seq<Block>, r: Round, k: nat, room: nat)
    requires bs > 0 && k < |s| && r.rest != [] && PieceMoved(bs, s, r, k) && |r.moved| == k + 1 && r.moved[..k] == s[..k]
    requires k > 0 ==> 8 * (BodyLength(bs, s[..k]) + 12) < 7 * room
    ensures EndsWithPiece(bs, s, r, room)
  {
    hide BodyLength, PieceMoved;
  }

  lemma Eighth(len: nat, used: nat)
    ensures len - used > len / 8 <==> 8 * used < 7 * len
  {
  }

  /** A block at the cut is moved whole or divided. */
  lemma SplitDivides(bs: nat, s: seq<Block>, k: nat, room: nat, r: Round)
    requires bs > 0 && k < |s|
    requires var (first, rest) := Split(bs, s[k], room);
             r == Round(s[..k] + [first], (match rest case None => [] case Some(b) => [b]) + s[k + 1..], true)
    ensures |r.moved| == k + 1 && r.moved[..k] == s[..k]
    ensures (r.moved == s[..k + 1] && r.rest == s[k + 1..]) || (r.rest != [] && PieceMoved(bs, s, r, k))
  {
    var (first, rest) := Split(bs, s[k], room);
    assert r.moved[..k] == s[..k];
    if rest.None? {
      assert r.moved == s[..k + 1] && r.rest == s[k + 1..];
    } else {
      assert r.rest[1..] == s[k + 1..];
    }
  }

  /** Block k is divided between the last block moved and the first one left. */
  ghost predicate PieceMoved(bs: nat, s: seq<Block>, r: Round, k: int)
    requires bs > 0 && r.rest != []
  {
    && 0 <= k < |s| && |r.moved| == k + 1 && r.moved[..k] == s[..k] && r.rest[1..] == s[k + 1..]
    && r.moved[k].len + r.rest[0].len == s[k].len && r.rest[0].len > 0 && r.moved[k].block == s[k].block
  }

  /** From one chunk header on, the conversion changes nothing. */
  lemma RoomFits(bs: nat, len: nat, s: seq<Block>, k: nat)
    requires bs > 0 && CHUNK_HEADER_LEN <= len < B32 && k <= |s| && Splits(bs, len, s, k)
    ensures SplitRoom(bs, len, s, k) == len - (BodyLength(bs, s[..k]) + CHUNK_HEADER_LEN)
  {
    EmptyBody(bs);
    assert k == 0 ==> s[..k] == [];
    SmallMod(len - (BodyLength(bs, s[..k]) + CHUNK_HEADER_LEN));
  }

  lemma SmallMod(x: nat)
    requires x < B32
    ensures x % B32 == x
  {
  }

  lemma AlignedIsAligned(x: nat, bs: nat)
    requires bs > 0
    ensures AlignUp(AlignDown(x, bs), bs) == AlignDown(x, bs)
  {
    hide DivRoundUp;
    var q := x / bs;
    var d := DivRoundUp(q * bs, bs);
    BlockOrder(d, q, bs);
    BlockOrder(q, d, bs);
  }

  /** Rounding up is monotone. */
  lemma AlignUpMonotone(x: nat, y: nat, bs: nat)
    requires bs > 0 && x <= y
    ensures AlignUp(x, bs) <= AlignUp(y, bs)
  {
    hide DivRoundUp, AlignUp;
    var a, b := DivRoundUp(x, bs), DivRoundUp(y, bs);
    BlockOrder(b, a, bs);
  }

  /** A piece cut to fit `room` bytes occupies at most `room` bytes of data. */
  lemma PieceFits(bs: nat, b: Block, room: nat)
    requires bs > 0
    ensures AlignUp(Split(bs, b, room).0.len, bs) <= room
  {
    AlignedIsAligned(room, bs);
    AlignUpMonotone(Split(bs, b, room).0.len, AlignDown(room, bs), bs);
  }

  /** The body of a file that ends in a piece cut to the free room: the split charges one chunk
      header and neither the gap header nor, for a fill, the value. */
  lemma SplitFileLength(bs: nat, len: int, s: seq<Block>, k: nat, room: nat)
    requires bs > 0 && len > CHUNK_HEADER_LEN && k < |s| && Splits(bs, len, s, k)
    requires room == len - (BodyLength(bs, s[..k]) + CHUNK_HEADER_LEN)
    ensures BodyLength(bs, s[..k] + [Split(bs, s[k], room).0]) <= len + 15
  {
    hide AlignUp, AlignDown, DivRoundUp, Split, LastBlock;
    var first := Split(bs, s[k], room).0;
    PieceFits(bs, s[k], room);
    BodyLengthNext(bs, s[..k], first);
    if k == 0 {
      assert s[..k] == [];
    }
  }

  lemma BodyLengthNext(bs: nat, s: seq<Block>, b: Block)
    requires bs > 0
    ensures BodyLength(bs, s + [b]) == BodyLength(bs, s) + GapLength(b, LastBlock(bs, s)) + ChunkLength(bs, b)
  {
    assert (s + [b])[..|s|] == s;
  }

  /** From a limit of 69 on, every file a round produces is shorter than the limit, whatever the
      block size: the reserved overhead covers what the split does not charge. */
  lemma RoundFitsLimit(bs: nat, s: seq<Block>, maxLen: nat, total: nat)
    requires bs > 0 && 69 <= maxLen < B32
    ensures FileLength(bs, total, MoveChunks(bs, s, maxLen).moved) < maxLen
  {
    hide LastBlock, Split, BodyLength;
    var len := Budget(maxLen);
    var k := Cut(bs, len, s, 0);
    EmptyBody(bs);
    if k == |s| {
      assert s[..k] == s;
    } else if Splits(bs, len, s, k) {
      RoomFits(bs, len, s, k);
      SplitFileLength(bs, len, s, k, SplitRoom(bs, len, s, k));
    }
  }

  lemma EmptyBody(bs: nat)
    requires bs > 0
    ensures BodyLength(bs, []) == 0
  {
  }

  // ----------------------------------------------------- progress and the loop

  function TotalLen(s: seq<Block>): nat
  {
    if s == [] then 0 else s[0].len + TotalLen(s[1..])
  }

  lemma {:induction false} TotalLenConcat(s: seq<Block>, t: seq<Block>)
    ensures TotalLen(s + t) == TotalLen(s) + TotalLen(t)
  {
    if s == [] {
      assert s + t == t;
    } else {
      assert (s + t)[1..] == s[1..] + t;
      TotalLenConcat(s[1..], t);
    }
  }

  /** The limit is large enough for a block of data, or so small that the unsigned room is huge. */
  predicate Advances(bs: nat, maxLen: nat)
  {
    bs + CHUNK_HEADER_LEN <= Budget(maxLen) || (Budget(maxLen) < CHUNK_HEADER_LEN && bs + CHUNK_HEADER_LEN <= B32)
  }

  /** A block that a round can take from the head of the list although no data fits: an empty
      one, or a fill whose chunk, with the gap header it may need, is within the budget. */
  predicate HeadFits(len: nat, b: Block)
  {
    b.len == 0 || (b.backing.Fill? && GapLength(b, 0) + CHUNK_HEADER_LEN + 4 <= len)
  }

  /** The loop of sparse_file_resparse ends; see ResparseEndsIff. */
  predicate Terminates(bs: nat, s: seq<Block>, maxLen: nat)
  {
    Advances(bs, maxLen) || forall i :: 0 <= i < |s| ==> HeadFits(Budget(maxLen), s[i])
  }

  /** A first block that does not fit is cut to a piece that is not empty. */
  lemma HeadRoom(bs: nat, s: seq<Block>, maxLen: nat)
    requires bs > 0 && Advances(bs, maxLen)
    ensures AlignDown(SplitRoom(bs, Budget(maxLen), s, 0), bs) > 0
  {
    hide AlignDown;
    var len := Budget(maxLen);
    EmptyBody(bs);
    assert s[..0] == [];
    var room := SplitRoom(bs, len, s, 0);
    assert room >= bs by {
      if len >= CHUNK_HEADER_LEN {
        SmallMod(len - CHUNK_HEADER_LEN);
      } else {
        assert (len - CHUNK_HEADER_LEN) % B32 == B32 + len - CHUNK_HEADER_LEN;
      }
    }
    Reaches(room, bs);
  }

  lemma Reaches(x: nat, bs: nat)
    requires 0 < bs <= x
    ensures AlignDown(x, bs) > 0
  {
  }

  lemma TooShort(x: nat, bs: nat)
    requires x < bs
    ensures AlignDown(x, bs) == 0
  {
    if x / bs >= 1 {
      MulMonotone(1, x / bs, bs);
    }
  }

  /** With a budget between a chunk header and a block of data, a round takes whole blocks only. */
  lemma SmallRound(bs: nat, s: seq<Block>, maxLen: nat)
    requires bs > 0 && CHUNK_HEADER_LEN <= Budget(maxLen) < bs + CHUNK_HEADER_LEN
    requires Cut(bs, Budget(maxLen), s, 0) < |s|
    ensures var k, r := Cut(bs, Budget(maxLen), s, 0), MoveChunks(bs, s, maxLen);
            && r.more && (r.rest == s[k..] || (s[k].len == 0 && r.rest == s[k + 1..]))
            && (k == 0 && s[0].len == 0 ==> r.rest == s[1..])
            && (k == 0 && s[0].len > 0 ==> r.rest == s)
  {
    hide BodyLength, Cut, AlignDown;
    var len := Budget(maxLen);
    var k := Cut(bs, len, s, 0);
    if Splits(bs, len, s, k) {
      RoomFits(bs, len, s, k);
      TooShort(SplitRoom(bs, len, s, k), bs);
      var b := s[k];
      assert 0 / bs == 0 && b.backing.Advance(0) == b.backing;
      assert [b] + s[k + 1..] == s[k..];
    }
  }

  /** (remaining bytes, remaining blocks) decreases lexicographically in every round that is
      followed by another, also when the split leaves an empty piece behind. */
  lemma RoundProgress(bs: nat, s: seq<Block>, maxLen: nat)
    requires bs > 0 && Terminates(bs, s, maxLen) && MoveChunks(bs, s, maxLen).more
    ensures var rest := MoveChunks(bs, s, maxLen).rest;
            && (TotalLen(rest) < TotalLen(s) || (TotalLen(rest) == TotalLen(s) && |rest| < |s|))
            && Terminates(bs, rest, maxLen)
  {
    hide BodyLength, AlignDown, TotalLen;
    if Advances(bs, maxLen) {
      AdvancingProgress(bs, s, maxLen);
    } else if Budget(maxLen) < CHUNK_HEADER_LEN {
      TinyProgress(bs, s, maxLen);
    } else {
      SmallProgress(bs, s, maxLen);
    }
  }

  lemma AdvancingProgress(bs: nat, s: seq<Block>, maxLen: nat)
    requires bs > 0 && Advances(bs, maxLen) && MoveChunks(bs, s, maxLen).more
    ensures var rest := MoveChunks(bs, s, maxLen).rest;
            TotalLen(rest) < TotalLen(s) || (TotalLen(rest) == TotalLen(s) && |rest| < |s|)
  {
    hide BodyLength, AlignDown, TotalLen, Cut;
    var len := Budget(maxLen);
    var k := Cut(bs, len, s, 0);
    TotalLenAt(s, k);
    if Splits(bs, len, s, k) {
      if k == 0 {
        HeadRoom(bs, s, maxLen);
      }
      SplitProgress(bs, s, k, SplitRoom(bs, len, s, k));
    }
  }

  /** Taking the blocks before k and a piece of block k. */
  lemma SplitProgress(bs: nat, s: seq<Block>, k: nat, room: nat)
    requires bs > 0 && k < |s| && (k == 0 ==> AlignDown(room, bs) > 0)
    ensures var rest := (match Split(bs, s[k], room).1 case None => [] case Some(r) => [r]) + s[k + 1..];
            TotalLen(rest) < TotalLen(s) || (TotalLen(rest) == TotalLen(s) && |rest| < |s|)
  {
    hide AlignDown, TotalLen;
    TotalLenAt(s, k);
    match Split(bs, s[k], room).1
    case None =>
      assert [] + s[k + 1..] == s[k + 1..];
    case Some(r) =>
      var left := [r] + s[k + 1..];
      TotalLenAt(left, 0);
      assert left[1..] == s[k + 1..] && left[..0] == [];
      TotalLenNil();
  }

  /** Below one chunk header nothing fits, and a list of empty blocks loses its first. */
  lemma TinyProgress(bs: nat, s: seq<Block>, maxLen: nat)
    requires bs > 0 && Budget(maxLen) < CHUNK_HEADER_LEN && MoveChunks(bs, s, maxLen).more
    requires forall i :: 0 <= i < |s| ==> HeadFits(Budget(maxLen), s[i])
    ensures var rest := MoveChunks(bs, s, maxLen).rest;
            TotalLen(rest) == TotalLen(s) && |rest| < |s| && forall i :: 0 <= i < |rest| ==> HeadFits(Budget(maxLen), rest[i])
  {
    hide BodyLength, TotalLen;
    var len := Budget(maxLen);
    assert Cut(bs, len, s, 0) == 0 by {
      BodyLengthStep(bs, s, 0);
      EmptyBody(bs);
      assert s[..0] == [];
    }
    assert s[0].len == 0;
    assert MoveChunks(bs, s, maxLen).rest == s[1..];
    TotalLenAt(s, 0);
    assert s[..0] == [] && s[0..] == s;
    TotalLenNil();
  }

  lemma SmallProgress(bs: nat, s: seq<Block>, maxLen: nat)
    requires bs > 0 && CHUNK_HEADER_LEN <= Budget(maxLen) < bs + CHUNK_HEADER_LEN && MoveChunks(bs, s, maxLen).more
    requires forall i :: 0 <= i < |s| ==> HeadFits(Budget(maxLen), s[i])
    ensures var rest := MoveChunks(bs, s, maxLen).rest;
            && (TotalLen(rest) < TotalLen(s) || (TotalLen(rest) == TotalLen(s) && |rest| < |s|))
            && forall i :: 0 <= i < |rest| ==> HeadFits(Budget(maxLen), rest[i])
  {
    hide BodyLength, MoveChunks, TotalLen;
    var len := Budget(maxLen);
    MoreMeansCut(bs, s, maxLen);
    var k := Cut(bs, len, s, 0);
    SmallRound(bs, s, maxLen);
    HeadBody(bs, s);
    TotalLenAt(s, k);
    var rest := MoveChunks(bs, s, maxLen).rest;
    if rest == s[k..] {
      assert forall i :: 0 <= i < |rest| ==> rest[i] == s[k + i];
    } else {
      assert forall i :: 0 <= i < |rest| ==> rest[i] == s[k + 1 + i];
    }
  }

  lemma MoreMeansCut(bs: nat, s: seq<Block>, maxLen: nat)
    requires bs > 0 && MoveChunks(bs, s, maxLen).more
    ensures Cut(bs, Budget(maxLen), s, 0) < |s|
  {
  }

  lemma HeadBody(bs: nat, s: seq<Block>)
    requires bs > 0 && s != []
    ensures BodyLength(bs, s[..1]) == GapLength(s[0], 0) + ChunkLength(bs, s[0])
  {
    BodyLengthStep(bs, s, 0);
    assert s[..0] == [];
  }

  lemma TotalLenNil()
    ensures TotalLen([]) == 0
  {
  }

  lemma TotalLenAt(s: seq<Block>, k: nat)
    requires k < |s|
    ensures TotalLen(s) == TotalLen(s[..k]) + TotalLen(s[k..])
    ensures TotalLen(s[k..]) == s[k].len + TotalLen(s[k + 1..])
  {
    assert s == s[..k] + s[k..] && s[k..][1..] == s[k + 1..];
    TotalLenConcat(s[..k], s[k..]);
  }

  /** The files of sparse_file_resparse, in order. */
  function Files(bs: nat, s: seq<Block>, maxLen: nat): (files: seq<seq<Block>>)
    requires bs > 0 && Terminates(bs, s, maxLen)
    ensures files != []
    decreases TotalLen(s), |s|
  {
    var round := MoveChunks(bs, s, maxLen);
    if round.more then
      RoundProgress(bs, s, maxLen);
      [round.moved] + Files(bs, round.rest, maxLen)
    else [round.moved]
  }

  function Flatten(files: seq<seq<Block>>): seq<Block>
  {
    if files == [] then [] else files[0] + Flatten(files[1..])
  }

  // ----------------------------------------------------- when the loop ends

  /** The do-while loop is left after at most n + 1 rounds. */
  predicate EndsWithin(bs: nat, s: seq<Block>, maxLen: nat, n: nat)
    requires bs > 0
    decreases n
  {
    var round := MoveChunks(bs, s, maxLen);
    !round.more || (n > 0 && EndsWithin(bs, round.rest, maxLen, n - 1))
  }

  lemma {:induction false} FilesEnd(bs: nat, s: seq<Block>, maxLen: nat)
    requires bs > 0 && Terminates(bs, s, maxLen)
    ensures EndsWithin(bs, s, maxLen, |Files(bs, s, maxLen)| - 1)
    decreases TotalLen(s), |s|
  {
    hide MoveChunks;
    if MoveChunks(bs, s, maxLen).more {
      RoundProgress(bs, s, maxLen);
      FilesEnd(bs, MoveChunks(bs, s, maxLen).rest, maxLen);
    }
  }

  /** A block that does not fit at the head does not fit behind others either. */
  lemma NeverFits(bs: nat, s: seq<Block>, len: nat, j: nat)
    requires bs > 0 && CHUNK_HEADER_LEN <= len < bs + CHUNK_HEADER_LEN && j < |s| && !HeadFits(len, s[j])
    ensures BodyLength(bs, s[..j + 1]) > len
  {
    BodyLengthStep(bs, s, j);
    if !s[j].backing.Fill? {
      WholeBlockAtLeast(s[j].len, bs);
    } else if j == 0 {
      assert s[..0] == [];
    } else {
      BodyLengthStep(bs, s, j - 1);
    }
  }

  lemma WholeBlockAtLeast(x: nat, bs: nat)
    requires bs > 0 && x > 0
    ensures AlignUp(x, bs) >= bs
  {
    if DivRoundUp(x, bs) >= 1 {
      MulMonotone(1, DivRoundUp(x, bs), bs);
    }
  }

  /** Then every round leaves it behind... */
  lemma StaysBehind(bs: nat, s: seq<Block>, maxLen: nat, j: nat) returns (j': nat)
    requires bs > 0 && CHUNK_HEADER_LEN <= Budget(maxLen) < bs + CHUNK_HEADER_LEN
    requires j < |s| && !HeadFits(Budget(maxLen), s[j])
    ensures var r := MoveChunks(bs, s, maxLen); r.more && j' < |r.rest| && r.rest[j'] == s[j]
  {
    assert s[j].len > 0;
    hide BodyLength, MoveChunks, Cut, HeadFits;
    var k := Cut(bs, Budget(maxLen), s, 0);
    NeverFits(bs, s, Budget(maxLen), j);
    assert k <= j;
    SmallRound(bs, s, maxLen);
    if MoveChunks(bs, s, maxLen).rest == s[k..] {
      j' := j - k;
    } else {
      j' := j - k - 1;
    }
  }

  /** ... and the loop goes on for ever. */
  lemma {:induction false} NeverEnds(bs: nat, s: seq<Block>, maxLen: nat, j: nat, n: nat)
    requires bs > 0 && CHUNK_HEADER_LEN <= Budget(maxLen) < bs + CHUNK_HEADER_LEN
    requires j < |s| && !HeadFits(Budget(maxLen), s[j])
    ensures !EndsWithin(bs, s, maxLen, n)
    decreases n
  {
    hide BodyLength, MoveChunks, HeadFits;
    var j' := StaysBehind(bs, s, maxLen, j);
    if n > 0 {
      NeverEnds(bs, MoveChunks(bs, s, maxLen).rest, maxLen, j', n - 1);
    }
  }

  /** For every limit: sparse_file_resparse ends if and only if the limit has room for one block
      of data, or is so small that the room wraps around, or every block that is not empty is a
      fill whose chunk fits. In terms of max_len the middle range is 68 to block size plus 67,
      and there a fill needs 72 bytes, 84 if it does not start the image. */
  lemma ResparseEndsIff(bs: nat, s: seq<Block>, maxLen: nat)
    requires 0 < bs && bs + CHUNK_HEADER_LEN <= B32
    ensures (exists n :: EndsWithin(bs, s, maxLen, n)) <==> Terminates(bs, s, maxLen)
    ensures maxLen < B32 ==>
              (Advances(bs, maxLen) <==> bs + 68 <= (if maxLen < OVERHEAD then B32 + maxLen else maxLen) || 56 <= maxLen < 68)
  {
    if Terminates(bs, s, maxLen) {
      FilesEnd(bs, s, maxLen);
    } else {
      var j :| 0 <= j < |s| && !HeadFits(Budget(maxLen), s[j]);
      forall n: nat ensures !EndsWithin(bs, s, maxLen, n) {
        NeverEnds(bs, s, maxLen, j, n);
      }
    }
  }

  /** A limit below the overhead of 56 bytes wraps around: what a 32-bit length can hold goes into
      one file, whatever the limit. */
  lemma LimitBelowOverhead(bs: nat, s: seq<Block>, maxLen: nat)
    requires bs > 0 && maxLen < OVERHEAD && BodyLength(bs, s) <= B32 - OVERHEAD + maxLen
    ensures MoveChunks(bs, s, maxLen) == Round(s, [], false)
  {
    hide BodyLength;
    var len := Budget(maxLen);
    var k := Cut(bs, len, s, 0);
    if k < |s| {
      PrefixBody(bs, s, k + 1);
    }
  }

  lemma {:induction false} PrefixBody(bs: nat, s: seq<Block>, k: nat)
    requires bs > 0 && k <= |s|
    ensures BodyLength(bs, s[..k]) <= BodyLength(bs, s)
    decreases |s| - k
  {
    if k == |s| {
      assert s[..k] == s;
    } else {
      PrefixBody(bs, s, k + 1);
      BodyLengthStep(bs, s, k);
    }
  }

  /** From 56 to 67 no chunk fits, the room becomes a huge unsigned number, and every round moves
      one block whole. */
  lemma LimitBelowOneChunk(bs: nat, s: seq<Block>, maxLen: nat)
    requires bs > 0 && OVERHEAD <= maxLen < OVERHEAD + CHUNK_HEADER_LEN
    requires s != [] && s[0].len <= AlignDown(B32 + maxLen - 68, bs)
    ensures MoveChunks(bs, s, maxLen) == Round([s[0]], s[1..], true)
  {
    hide AlignDown;
    var len := Budget(maxLen);
    EmptyBody(bs);
    assert s[..0] == [];
    BodyLengthStep(bs, s, 0);
    assert Cut(bs, len, s, 0) == 0;
    assert SplitRoom(bs, len, s, 0) == B32 + maxLen - 68;
    assert [] + s[1..] == s[1..] && s[..0] + [s[0]] == [s[0]];
  }

  // ------------------------------------------------------------ conservation

  /** A round redistributes the list: at most one block is replaced by its two pieces. */
  lemma RoundShape(bs: nat, s: seq<Block>, maxLen: nat) returns (k: nat, room: nat)
    requires bs > 0
    ensures var r := MoveChunks(bs, s, maxLen);
            if k < |s|
            then r.more && (r.moved + r.rest == s || r.moved + r.rest == s[..k] + Pieces(bs, s[k], room) + s[k + 1..])
            else r.moved + r.rest == s
    ensures k < |s| || !MoveChunks(bs, s, maxLen).more
  {
    hide BodyLength, Split, Cut;
    var len := Budget(maxLen);
    k := Cut(bs, len, s, 0);
    room := SplitRoom(bs, len, s, k);
    var r := MoveChunks(bs, s, maxLen);
    if k < |s| && Splits(bs, len, s, k) {
      assert r.moved + r.rest == s[..k] + Pieces(bs, s[k], room) + s[k + 1..];
    }
  }

  /** A round neither loses nor invents a byte. */
  lemma RoundContent(g: Geometry, s: seq<Block>, maxLen: nat, o: int)
    requires g.Valid()
    ensures var r := MoveChunks(g.bs, s, maxLen); At(g, r.moved + r.rest, o) == At(g, s, o)
  {
    hide MoveChunks;
    var k, room := RoundShape(g.bs, s, maxLen);
    if k < |s| {
      hide Pieces;
      SplitContent(g, s[k], room, o);
      AtOne(g, s[k], o);
      AtConcat(g, s[..k] + Pieces(g.bs, s[k], room), s[k + 1..], o);
      AtConcat(g, s[..k], Pieces(g.bs, s[k], room), o);
      AtConcat(g, s[..k] + [s[k]], s[k + 1..], o);
      AtConcat(g, s[..k], [s[k]], o);
      assert s == s[..k] + [s[k]] + s[k + 1..];
    }
  }

  /** Conservation: the files of resparse together hold exactly the original bytes. */
  lemma {:induction false} FilesContent(g: Geometry, s: seq<Block>, maxLen: nat, o: int)
    requires g.Valid() && Terminates(g.bs, s, maxLen)
    ensures At(g, Flatten(Files(g.bs, s, maxLen)), o) == At(g, s, o)
    decreases TotalLen(s), |s|
  {
    var r := MoveChunks(g.bs, s, maxLen);
    RoundContent(g, s, maxLen, o);
    if r.more {
      RoundProgress(g.bs, s, maxLen);
      FilesContent(g, r.rest, maxLen, o);
      var tail := Files(g.bs, r.rest, maxLen);
      assert ([r.moved] + tail)[1..] == tail;
      AtConcat(g, r.moved, Flatten(tail), o);
      AtConcat(g, r.moved, r.rest, o);
    } else {
      assert Flatten([r.moved]) == r.moved + Flatten([]);
      assert r.moved + Flatten([]) == r.moved;
      LastRoundTakesAll(g.bs, s, maxLen);
    }
  }

  lemma LastRoundTakesAll(bs: nat, s: seq<Block>, maxLen: nat)
    requires bs > 0 && !MoveChunks(bs, s, maxLen).more
    ensures MoveChunks(bs, s, maxLen) == Round(s, [], false)
  {
  }

  // ---------------------------------------------------- order and disjointness

  /** b starts at block L or later. */
  ghost predicate AllFrom(s: seq<Block>, L: nat)
  {
    forall i :: 0 <= i < |s| ==> L <= s[i].block
  }

  /** Every block lies before block L. */
  ghost predicate AllBefore(g: Geometry, s: seq<Block>, L: nat)
  {
    forall i :: 0 <= i < |s| ==> s[i].block <= L && End(g, s[i]) <= L * g.bs
  }

  lemma OrderedConcat(g: Geometry, s: seq<Block>, t: seq<Block>, L: nat)
    requires g.Valid() && Ordered(g, s) && Ordered(g, t) && AllBefore(g, s, L) && AllFrom(t, L)
    ensures Ordered(g, s + t)
  {
    var u := s + t;
    forall i, j | 0 <= i < j < |u| ensures u[i].block <= u[j].block && Before(g, u[i], u[j]) {
      if i < |s| <= j {
        assert u[i] == s[i] && u[j] == t[j - |s|];
        BlockOrder(L, u[j].block, g.bs);
      }
    }
  }

  /** Replacing a block by its pieces keeps the order. */
  lemma ReplaceKeepsOrder(g: Geometry, s: seq<Block>, k: nat, room: nat, low: nat)
    requires g.Valid() && Ordered(g, s) && AllFrom(s, low) && k < |s|
    ensures var t := s[..k] + Pieces(g.bs, s[k], room) + s[k + 1..]; Ordered(g, t) && AllFrom(t, low)
  {
    hide Split;
    SplitFacts(g, s[k], room);
    var (first, rest) := Split(g.bs, s[k], room);
    var t := s[..k] + Pieces(g.bs, s[k], room) + s[k + 1..];
    match rest
    case None =>
      assert t == s;
    case Some(x) =>
      assert t == s[..k] + [first, x] + s[k + 1..];
      BlockOrder(s[k].block, x.block, g.bs);
      forall i, j | 0 <= i < j < |t| ensures t[i].block <= t[j].block && Before(g, t[i], t[j]) {
        PieceOrder(g, s, k, first, x, i, j);
      }
  }

  lemma PieceOrder(g: Geometry, s: seq<Block>, k: nat, first: Block, x: Block, i: nat, j: nat)
    requires g.Valid() && Ordered(g, s) && k < |s|
    requires first.block == s[k].block <= x.block && x.len > 0
    requires End(g, first) == Start(g, x) && End(g, x) == End(g, s[k])
    requires i < j < |s| + 1
    ensures var t := s[..k] + [first, x] + s[k + 1..];
            t[i].block <= t[j].block && Before(g, t[i], t[j])
  {
    var t := s[..k] + [first, x] + s[k + 1..];
    var i' := if i <= k then i else i - 1;
    var j' := if j <= k then j else j - 1;
    assert i != k && i != k + 1 ==> t[i] == s[i'];
    assert j != k && j != k + 1 ==> t[j] == s[j'];
    assert i' < j' ==> Before(g, s[i'], s[j']);
    BlockOrder(s[k].block, x.block, g.bs);
    if i == k + 1 {
      BlockOrder(t[j].block, x.block, g.bs);
    }
  }

  lemma OrderedParts(g: Geometry, s: seq<Block>, t: seq<Block>, low: nat)
    requires Ordered(g, s + t) && AllFrom(s + t, low)
    ensures Ordered(g, s) && Ordered(g, t) && AllFrom(s, low) && AllFrom(t, low)
    ensures t != [] ==> AllBefore(g, s, t[0].block) && AllFrom(t, t[0].block)
  {
    var u := s + t;
    forall i, j | 0 <= i < j < |s| ensures s[i].block <= s[j].block && Before(g, s[i], s[j]) {
      assert u[i] == s[i] && u[j] == s[j];
    }
    forall i, j | 0 <= i < j < |t| ensures t[i].block <= t[j].block && Before(g, t[i], t[j]) {
      assert u[|s| + i] == t[i] && u[|s| + j] == t[j];
    }
    forall i | 0 <= i < |s| ensures low <= s[i].block && (t != [] ==> s[i].block <= t[0].block && Before(g, s[i], t[0])) {
      assert u[i] == s[i] && (t != [] ==> u[|s|] == t[0]);
    }
    forall i | 0 <= i < |t| ensures low <= t[i].block {
      assert u[|s| + i] == t[i];
    }
  }

  /** The moved blocks of a round lie before those that stay. */
  lemma RoundOrder(g: Geometry, s: seq<Block>, maxLen: nat, low: nat)
    requires g.Valid() && Ordered(g, s) && AllFrom(s, low)
    ensures var r := MoveChunks(g.bs, s, maxLen);
            && Ordered(g, r.moved) && Ordered(g, r.rest)
            && AllFrom(r.moved, low) && AllFrom(r.rest, low)
            && (r.rest != [] ==> AllBefore(g, r.moved, r.rest[0].block) && AllFrom(r.rest, r.rest[0].block))
  {
    hide MoveChunks, Ordered, AllFrom;
    var k, room := RoundShape(g.bs, s, maxLen);
    var r := MoveChunks(g.bs, s, maxLen);
    if k < |s| {
      ReplaceKeepsOrder(g, s, k, room, low);
    }
    OrderedParts(g, r.moved, r.rest, low);
  }

  /** All files together are sorted and do not overlap. */
  lemma {:induction false} FilesOrder(g: Geometry, s: seq<Block>, maxLen: nat, low: nat)
    requires g.Valid() && Terminates(g.bs, s, maxLen) && Ordered(g, s) && AllFrom(s, low)
    ensures var t := Flatten(Files(g.bs, s, maxLen)); Ordered(g, t) && AllFrom(t, low)
    decreases TotalLen(s), |s|
  {
    hide MoveChunks;
    var r := MoveChunks(g.bs, s, maxLen);
    RoundOrder(g, s, maxLen, low);
    if r.more {
      RoundProgress(g.bs, s, maxLen);
      var tail := Files(g.bs, r.rest, maxLen);
      assert ([r.moved] + tail)[1..] == tail;
      if r.rest == [] {
        NothingLeft(g.bs, maxLen);
        assert r.moved + Flatten(tail) == r.moved;
      } else {
        var L := r.rest[0].block;
        FilesOrder(g, r.rest, maxLen, L);
        OrderedConcat(g, r.moved, Flatten(tail), L);
        FilesOrder(g, r.rest, maxLen, low);
      }
    } else {
      assert Flatten([r.moved]) == r.moved + Flatten([]) == r.moved;
    }
  }

  lemma NothingLeft(bs: nat, maxLen: nat)
    requires bs > 0
    ensures Flatten(Files(bs, [], maxLen)) == []
  {
    LastRoundTakesAll(bs, [], maxLen);
    assert Files(bs, [], maxLen) == [[]];
    assert Flatten([[]]) == [] + Flatten([]);
  }

  /** No byte is in two of the files. */
  lemma {:induction false} FlattenAt(g: Geometry, files: seq<seq<Block>>, i: nat, o: int)
    requires Ordered(g, Flatten(files)) && i < |files| && At(g, files[i], o).Some?
    ensures At(g, Flatten(files), o) == At(g, files[i], o)
    ensures forall j :: 0 <= j < |files| && j != i ==> At(g, files[j], o).None?
  {
    var head, tail := files[0], Flatten(files[1..]);
    AtConcat(g, head, tail, o);
    OrderedParts(g, head, tail, 0);
    if i == 0 {
      forall j | 0 < j < |files| ensures At(g, files[j], o).None? {
        if At(g, files[j], o).Some? {
          assert files[1..][j - 1] == files[j];
          FlattenAt(g, files[1..], j - 1, o);
          NotInBoth(g, head, tail, o);
        }
      }
    } else {
      assert files[1..][i - 1] == files[i];
      FlattenAt(g, files[1..], i - 1, o);
      forall j | 0 < j < |files| && j != i ensures At(g, files[j], o).None? {
        assert files[1..][j - 1] == files[j];
      }
      NotInBoth(g, head, tail, o);
    }
  }

  lemma NotInBoth(g: Geometry, s: seq<Block>, t: seq<Block>, o: int)
    requires Ordered(g, s + t) && At(g, t, o).Some?
    ensures At(g, s, o).None?
  {
    var j := CoveringBlock(g, t, o);
    forall i | 0 <= i < |s| ensures !Covers(g, s[i], o) {
      assert (s + t)[i] == s[i] && (s + t)[|s| + j] == t[j];
      assert Before(g, s[i], t[j]);
    }
    AtNone(g, s, o);
  }

  lemma {:induction false} CoveringBlock(g: Geometry, s: seq<Block>, o: int) returns (i: nat)
    requires At(g, s, o).Some?
    ensures i < |s| && Covers(g, s[i], o)
  {
    if Covers(g, s[0], o) {
      i := 0;
    } else {
      var k := CoveringBlock(g, s[1..], o);
      i := k + 1;
    }
  }

  // ------------------------------------------------------- each file on its own

  /** Only the last block may be empty. */
  ghost predicate InsideButLast(g: Geometry, s: seq<Block>, size: nat)
  {
    forall i :: 0 <= i < |s| ==> (i < |s| - 1 ==> s[i].len > 0) && End(g, s[i]) <= size
  }

  lemma OrderedIsStrict(g: Geometry, s: seq<Block>, size: nat)
    requires g.Valid() && Ordered(g, s) && InsideButLast(g, s, size)
    ensures StrictlyOrdered(g, s)
  {
    forall i, j | 0 <= i < j < |s| ensures s[i].block < s[j].block {
      assert Before(g, s[i], s[j]);
      BlockOrder(s[j].block, s[i].block, g.bs);
    }
  }

  lemma RoundSizes(g: Geometry, s: seq<Block>, maxLen: nat, size: nat)
    requires g.Valid() && Inside(g, s, size)
    ensures var r := MoveChunks(g.bs, s, maxLen);
            InsideButLast(g, r.moved, size) && Inside(g, r.rest, size)
  {
    hide BodyLength, Split, Cut;
    var len := Budget(maxLen);
    var k := Cut(g.bs, len, s, 0);
    if k < |s| && Splits(g.bs, len, s, k) {
      PieceSizes(g, s, k, SplitRoom(g.bs, len, s, k), size);
    }
  }

  lemma PieceSizes(g: Geometry, s: seq<Block>, k: nat, room: nat, size: nat)
    requires g.Valid() && Inside(g, s, size) && k < |s|
    ensures var (first, rest) := Split(g.bs, s[k], room);
            && InsideButLast(g, s[..k] + [first], size)
            && Inside(g, (match rest case None => [] case Some(r) => [r]) + s[k + 1..], size)
  {
    hide Split;
    SplitFacts(g, s[k], room);
    match Split(g.bs, s[k], room).1
    case None =>
      assert [] + s[k + 1..] == s[k + 1..];
    case Some(r) =>
      assert r.len > 0 && End(g, r) == End(g, s[k]) <= size;
      var left := [r] + s[k + 1..];
      assert forall i :: 1 <= i < |left| ==> left[i] == s[k + i];
  }

  /** Every file of resparse is itself a well-formed list inside the image... */
  lemma {:induction false} FilesWellFormed(g: Geometry, s: seq<Block>, maxLen: nat, size: nat, i: nat)
    requires g.Valid() && Terminates(g.bs, s, maxLen) && Ordered(g, s) && Inside(g, s, size)
    requires i < |Files(g.bs, s, maxLen)|
    ensures StrictlyOrdered(g, Files(g.bs, s, maxLen)[i]) && InsideButLast(g, Files(g.bs, s, maxLen)[i], size)
    decreases TotalLen(s), |s|
  {
    hide MoveChunks;
    var r := MoveChunks(g.bs, s, maxLen);
    RoundOrder(g, s, maxLen, 0);
    RoundSizes(g, s, maxLen, size);
    if i == 0 {
      OrderedIsStrict(g, r.moved, size);
    } else {
      RoundProgress(g.bs, s, maxLen);
      FilesWellFormed(g, r.rest, maxLen, size, i - 1);
    }
  }

  lemma {:induction false} FlattenSplit(files: seq<seq<Block>>, k: nat)
    requires k <= |files|
    ensures Flatten(files) == Flatten(files[..k]) + Flatten(files[k..])
  {
    if k == 0 {
      assert files[0..] == files && files[..0] == [];
      assert Flatten(files[..0]) + Flatten(files) == Flatten(files);
    } else {
      FlattenSplit(files[1..], k - 1);
      assert files[1..][..k - 1] == files[..k][1..] && files[1..][k - 1..] == files[k..];
      assert files[0] + (Flatten(files[..k][1..]) + Flatten(files[k..]))
          == files[0] + Flatten(files[..k][1..]) + Flatten(files[k..]);
    }
  }

  /** Conservation for any size of the caller's array: the files it received and the list of
      blocks put back are pairwise disjoint and together hold exactly the original bytes. */
  lemma ResparseConserves(g: Geometry, s: seq<Block>, maxLen: nat, kept: nat, o: int)
    requires g.Valid() && Terminates(g.bs, s, maxLen) && Ordered(g, s)
    requires kept <= |Files(g.bs, s, maxLen)|
    ensures var files := Files(g.bs, s, maxLen);
            var back := Flatten(files[kept..]);
            && (forall i :: 0 <= i < kept && At(g, files[i], o).Some? ==>
                  && At(g, files[i], o) == At(g, s, o)
                  && At(g, back, o).None?
                  && forall j :: 0 <= j < kept && j != i ==> At(g, files[j], o).None?)
            && ((forall i :: 0 <= i < kept ==> At(g, files[i], o).None?) ==> At(g, back, o) == At(g, s, o))
  {
    hide Files, Ordered, At;
    var files := Files(g.bs, s, maxLen);
    var out, back := Flatten(files[..kept]), Flatten(files[kept..]);
    FilesContent(g, s, maxLen, o);
    FilesOrder(g, s, maxLen, 0) by {
      FromZero(s);
    }
    FlattenSplit(files, kept);
    AtConcat(g, out, back, o);
    forall i | 0 <= i < kept && At(g, files[i], o).Some?
      ensures At(g, files[i], o) == At(g, s, o) && At(g, back, o).None?
      ensures forall j :: 0 <= j < kept && j != i ==> At(g, files[j], o).None?
    {
      FlattenAt(g, files, i, o);
      if At(g, back, o).Some? {
        NotInBoth(g, out, back, o);
        OutHas(g, files[..kept], i, o);
      }
    }
    if forall i :: 0 <= i < kept ==> At(g, files[i], o).None? {
      OutLacks(g, files[..kept], o);
    }
  }

  lemma FromZero(s: seq<Block>)
    ensures AllFrom(s, 0)
  {
  }

  lemma {:induction false} OutHas(g: Geometry, files: seq<seq<Block>>, i: nat, o: int)
    requires i < |files| && At(g, files[i], o).Some?
    ensures At(g, Flatten(files), o).Some?
  {
    AtConcat(g, files[0], Flatten(files[1..]), o);
    if i > 0 {
      OutHas(g, files[1..], i - 1, o);
    }
  }

  lemma {:induction false} OutLacks(g: Geometry, files: seq<seq<Block>>, o: int)
    requires forall i :: 0 <= i < |files| ==> At(g, files[i], o).None?
    ensures At(g, Flatten(files), o).None?
  {
    if files != [] {
      AtConcat(g, files[0], Flatten(files[1..]), o);
      OutLacks(g, files[1..], o);
    }
  }

  // ---------------------------------------------- which files keep the limit

  /** The sparse form of every file is shorter than the limit. */
  ghost predicate FilesFit(bs: nat, s: seq<Block>, maxLen: nat, total: nat)
    requires bs > 0 && Terminates(bs, s, maxLen)
  {
    forall i :: 0 <= i < |Files(bs, s, maxLen)| ==> FileLength(bs, total, Files(bs, s, maxLen)[i]) < maxLen
  }

  /** From 69 on, whatever the blocks. */
  lemma {:induction false} FilesFitLimit(bs: nat, s: seq<Block>, maxLen: nat, total: nat)
    requires bs > 0 && 69 <= maxLen < B32 && Terminates(bs, s, maxLen)
    ensures FilesFit(bs, s, maxLen, total)
    decreases TotalLen(s), |s|
  {
    hide MoveChunks, FileLength, FilesFit;
    RoundFitsLimit(bs, s, maxLen, total);
    if MoveChunks(bs, s, maxLen).more {
      RoundProgress(bs, s, maxLen);
      FilesFitNext(bs, s, maxLen, total);
      FilesFitLimit(bs, MoveChunks(bs, s, maxLen).rest, maxLen, total);
    } else {
      FilesFitOnly(bs, s, maxLen, total);
    }
  }

  /** The files of a round that is followed by another. */
  lemma FilesFitNext(bs: nat, s: seq<Block>, maxLen: nat, total: nat)
    requires bs > 0 && Terminates(bs, s, maxLen) && MoveChunks(bs, s, maxLen).more
    ensures var r := MoveChunks(bs, s, maxLen);
            && Terminates(bs, r.rest, maxLen)
            && (FilesFit(bs, s, maxLen, total) <==> FileLength(bs, total, r.moved) < maxLen && FilesFit(bs, r.rest, maxLen, total))
  {
    hide MoveChunks, FileLength;
    RoundProgress(bs, s, maxLen);
    var r := MoveChunks(bs, s, maxLen);
    var files, tail := Files(bs, s, maxLen), Files(bs, r.rest, maxLen);
    assert files == [r.moved] + tail;
    if FilesFit(bs, s, maxLen, total) {
      assert files[0] == r.moved;
      forall i | 0 <= i < |tail| ensures FileLength(bs, total, tail[i]) < maxLen {
        assert tail[i] == files[i + 1];
      }
    }
  }

  lemma FilesFitOnly(bs: nat, s: seq<Block>, maxLen: nat, total: nat)
    requires bs > 0 && Terminates(bs, s, maxLen) && !MoveChunks(bs, s, maxLen).more
    ensures FilesFit(bs, s, maxLen, total) <==> FileLength(bs, total, MoveChunks(bs, s, maxLen).moved) < maxLen
  {
    hide MoveChunks, FileLength;
    assert Files(bs, s, maxLen) == [MoveChunks(bs, s, maxLen).moved];
    assert Files(bs, s, maxLen)[0] == MoveChunks(bs, s, maxLen).moved;
  }

  // From 56 to 68 there is room for one chunk header at most: each round takes the first block, or
  // as much of it as 32 bits allow, for a file of its own.

  /** The room that the first block of a round is cut to, in unsigned arithmetic. */
  function HeadCut(maxLen: nat): (room: nat)
  {
    (Budget(maxLen) - CHUNK_HEADER_LEN) % B32
  }

  /** The blocks as they are cut when each has a file of its own. */
  function Singles(bs: nat, s: seq<Block>, room: nat): seq<Block>
    requires bs > 0 && (room < bs ==> forall i :: 0 <= i < |s| ==> s[i].len == 0)
    decreases TotalLen(s), |s|
  {
    if s == [] then []
    else
      HeadSplit(bs, s, room);
      [Split(bs, s[0], room).0] + Singles(bs, Behind(bs, s, room), room)
  }

  /** What is left behind the piece cut off the first block. */
  function Behind(bs: nat, s: seq<Block>, room: nat): seq<Block>
    requires bs > 0 && s != []
  {
    (match Split(bs, s[0], room).1 case None => [] case Some(r) => [r]) + s[1..]
  }

  lemma HeadSplit(bs: nat, s: seq<Block>, room: nat)
    requires bs > 0 && s != [] && (room < bs ==> forall i :: 0 <= i < |s| ==> s[i].len == 0)
    ensures var left := Behind(bs, s, room);
            && (TotalLen(left) < TotalLen(s) || (TotalLen(left) == TotalLen(s) && |left| < |s|))
            && (room < bs ==> forall i :: 0 <= i < |left| ==> left[i].len == 0)
  {
    hide AlignDown, TotalLen;
    if room < bs {
      assert Behind(bs, s, room) == s[1..];
      TotalLenAt(s, 0);
      assert s[0..] == s && s[..0] == [];
      TotalLenNil();
    } else {
      Reaches(room, bs);
      SplitProgress(bs, s, 0, room);
    }
  }

  /** Blocks that are not too long for that are not cut at all. */
  lemma {:induction false} SinglesWhole(bs: nat, s: seq<Block>, room: nat)
    requires bs > 0 && (room < bs ==> forall i :: 0 <= i < |s| ==> s[i].len == 0)
    requires forall i :: 0 <= i < |s| ==> s[i].len <= AlignDown(room, bs)
    ensures Singles(bs, s, room) == s
    decreases |s|
  {
    hide AlignDown;
    if s != [] {
      HeadSplit(bs, s, room);
      assert Behind(bs, s, room) == s[1..];
      SinglesWhole(bs, s[1..], room);
    }
  }

  /** With such a limit the loop ends only if the head can be cut, or there is nothing to cut. */
  lemma HeadCutWorks(bs: nat, s: seq<Block>, maxLen: nat)
    requires bs > 0 && OVERHEAD <= maxLen <= 68 && Terminates(bs, s, maxLen)
    ensures HeadCut(maxLen) < bs ==> forall i :: 0 <= i < |s| ==> s[i].len == 0
  {
    if maxLen == 68 {
      assert HeadCut(maxLen) == 0;
    } else {
      assert HeadCut(maxLen) == B32 + maxLen - 68;
    }
  }

  /** One such round. */
  lemma SingleRound(bs: nat, s: seq<Block>, maxLen: nat)
    requires bs > 0 && OVERHEAD <= maxLen <= 68 && Terminates(bs, s, maxLen) && s != []
    ensures var r := MoveChunks(bs, s, maxLen);
            && r.moved == [Split(bs, s[0], HeadCut(maxLen)).0] && r.rest == Behind(bs, s, HeadCut(maxLen))
            && (r.more || r.rest == [])
  {
    hide Split, BodyLength;
    var len := Budget(maxLen);
    var k := Cut(bs, len, s, 0);
    EmptyBody(bs);
    HeadBody(bs, s);
    assert s[..0] == [];
    if k == 0 {
      assert SplitRoom(bs, len, s, 0) == HeadCut(maxLen);
      assert [] + [Split(bs, s[0], HeadCut(maxLen)).0] == [Split(bs, s[0], HeadCut(maxLen)).0];
    } else {
      SingleFits(bs, s, maxLen);
    }
  }

  /** Only with a limit of 68 anything fits, and that is one empty block of data. */
  lemma SingleFits(bs: nat, s: seq<Block>, maxLen: nat)
    requires bs > 0 && OVERHEAD <= maxLen <= 68 && Terminates(bs, s, maxLen) && s != []
    requires Cut(bs, Budget(maxLen), s, 0) > 0
    ensures MoveChunks(bs, s, maxLen) == Round([s[0]], s[1..], |s| > 1)
    ensures Split(bs, s[0], HeadCut(maxLen)).0 == s[0] && Behind(bs, s, HeadCut(maxLen)) == s[1..]
  {
    var len := Budget(maxLen);
    var k := Cut(bs, len, s, 0);
    EmptyBody(bs);
    HeadBody(bs, s);
    HeadCutWorks(bs, s, maxLen);
    hide BodyLength;
    assert maxLen == 68 && BodyLength(bs, s[..1]) == 12;
    assert s[..1] == [s[0]];
    if |s| > 1 {
      BodyLengthStep(bs, s, 1);
      assert BodyLength(bs, s[..2]) > len;
    }
    assert k == 1;
  }

  /** Every file holds one block, so all are shorter than the limit if and only if each is. */
  lemma {:induction false} SinglesFitIff(bs: nat, s: seq<Block>, maxLen: nat, total: nat)
    requires bs > 0 && OVERHEAD <= maxLen <= 68 && Terminates(bs, s, maxLen)
    ensures HeadCut(maxLen) < bs ==> forall i :: 0 <= i < |s| ==> s[i].len == 0
    ensures FilesFit(bs, s, maxLen, total) <==>
              forall b :: b in Singles(bs, s, HeadCut(maxLen)) ==> FileLength(bs, total, [b]) < maxLen
    decreases TotalLen(s), |s|
  {
    hide Split, BodyLength, MoveChunks, FilesFit;
    HeadCutWorks(bs, s, maxLen);
    if s == [] {
      NothingFits(bs, maxLen, total);
    } else {
      var r, room := MoveChunks(bs, s, maxLen), HeadCut(maxLen);
      SingleRound(bs, s, maxLen);
      HeadSplit(bs, s, room);
      if r.more {
        FilesFitNext(bs, s, maxLen, total);
        SinglesFitIff(bs, r.rest, maxLen, total);
      } else {
        FilesFitOnly(bs, s, maxLen, total);
        assert Singles(bs, r.rest, room) == [];
      }
      hide FileLength;
      assert Singles(bs, s, room) == r.moved + Singles(bs, r.rest, room);
    }
  }

  /** The file of nothing. */
  lemma NothingFits(bs: nat, maxLen: nat, total: nat)
    requires bs > 0 && OVERHEAD <= maxLen && Terminates(bs, [], maxLen)
    ensures FilesFit(bs, [], maxLen, total)
  {
    assert Files(bs, [], maxLen) == [[]];
  }

  // Below 56 the budget wraps around.

  /** A file whose first block is data of at least one block. */
  lemma {:induction false} BodyAtLeastHead(bs: nat, s: seq<Block>)
    requires bs > 0 && s != []
    ensures BodyLength(bs, s) >= ChunkLength(bs, s[0])
  {
    HeadBody(bs, s);
    PrefixBody(bs, s, 1);
  }

  /** A round that starts with data moves at least a block of it, if the room reaches that far. */
  lemma HeadFileLong(bs: nat, s: seq<Block>, maxLen: nat, total: nat)
    requires bs > 0 && Advances(bs, maxLen) && s != [] && !s[0].backing.Fill? && s[0].len > 0
    ensures FileLength(bs, total, MoveChunks(bs, s, maxLen).moved) >= 40 + bs
  {
    hide AlignUp, AlignDown, DivRoundUp, BodyLength, LastBlock;
    var len := Budget(maxLen);
    var k := Cut(bs, len, s, 0);
    var moved := MoveChunks(bs, s, maxLen).moved;
    WholeBlockAtLeast(s[0].len, bs);
    if k == 0 {
      HeadRoom(bs, s, maxLen);
      var room := SplitRoom(bs, len, s, 0);
      AlignedIsAligned(room, bs);
      WholeBlockAtLeast(AlignDown(room, bs), bs);
      assert s[..0] == [];
    }
    assert moved != [] && ChunkLength(bs, moved[0]) >= 12 + bs;
    BodyAtLeastHead(bs, moved);
  }

  lemma CutMeansMore(bs: nat, s: seq<Block>, maxLen: nat)
    requires bs > 0 && Cut(bs, Budget(maxLen), s, 0) < |s|
    ensures MoveChunks(bs, s, maxLen).more
  {
  }

  /** When a round of a huge budget moves next to nothing, it has cut nothing off a huge block of
      data, because blocks are huge, too. That data starts the next round. */
  lemma ShortStart(bs: nat, s: seq<Block>, maxLen: nat)
    requires bs > 0 && maxLen < OVERHEAD && Terminates(bs, s, maxLen) && Cut(bs, Budget(maxLen), s, 0) < |s|
    requires BodyLength(bs, MoveChunks(bs, s, maxLen).moved) < 28
    ensures bs >= 16 && Advances(bs, maxLen)
    ensures var rest := MoveChunks(bs, s, maxLen).rest;
            Terminates(bs, rest, maxLen) && rest != [] && !rest[0].backing.Fill? && rest[0].len > 0
  {
    hide BodyLength, MoveChunks, Split, RoomLeft;
    var len := Budget(maxLen);
    var k := Cut(bs, len, s, 0);
    CutMeansMore(bs, s, maxLen);
    RoundProgress(bs, s, maxLen);
    ShortRound(bs, s, maxLen, k);
    HugeBlock(bs, len, s, k, BodyLength(bs, s[..k]));
    assert MoveChunks(bs, s, maxLen).rest[0] == Split(bs, s[k], RoomLeft(len, BodyLength(bs, s[..k]))).1.value;
    assert !HeadFits(len, MoveChunks(bs, s, maxLen).rest[0]);
  }

  function RoomLeft(len: nat, used: nat): nat
    requires used + CHUNK_HEADER_LEN <= len
  {
    len - (used + CHUNK_HEADER_LEN)
  }

  /** The round ends with a piece of block k, cut to what is left. */
  lemma ShortRound(bs: nat, s: seq<Block>, maxLen: nat, k: nat)
    requires bs > 0 && maxLen < OVERHEAD && k == Cut(bs, Budget(maxLen), s, 0) < |s|
    requires BodyLength(bs, MoveChunks(bs, s, maxLen).moved) < 28
    ensures BodyLength(bs, s[..k]) < 28 && Splits(bs, Budget(maxLen), s, k)
    ensures var piece := Split(bs, s[k], RoomLeft(Budget(maxLen), BodyLength(bs, s[..k])));
            && ChunkLength(bs, piece.0) < 28
            && MoveChunks(bs, s, maxLen).rest == (match piece.1 case None => [] case Some(r) => [r]) + s[k + 1..]
  {
    hide AlignUp, AlignDown, DivRoundUp, BodyLength, LastBlock, Split;
    var len := Budget(maxLen);
    BodyLengthNext(bs, s[..k], Split(bs, s[k], SplitRoom(bs, len, s, k)).0);
    assert BodyLength(bs, s[..k]) < 28;
    assert Splits(bs, len, s, k);
    RoomFits(bs, len, s, k);
  }

  /** A block that does not fit a huge budget, of which a small piece is taken. */
  lemma HugeBlock(bs: nat, len: nat, s: seq<Block>, k: nat, used: nat)
    requires bs > 0 && B32 - OVERHEAD <= len && k < |s| && used == BodyLength(bs, s[..k]) < 28
    requires BodyLength(bs, s[..k + 1]) > len && ChunkLength(bs, Split(bs, s[k], RoomLeft(len, used)).0) < 28
    ensures bs >= 16
    ensures var rest := Split(bs, s[k], RoomLeft(len, used)).1; rest.Some? && !rest.value.backing.Fill? && rest.value.len > 0
  {
    hide AlignUp, AlignDown, DivRoundUp, BodyLength, LastBlock;
    BodyLengthStep(bs, s, k);
    AlignedIsAligned(RoomLeft(len, used), bs);
  }

  /** A list that is too long for the wrapped budget makes some file too long. */
  lemma WrappedTooLong(bs: nat, s: seq<Block>, maxLen: nat, total: nat)
    requires bs > 0 && maxLen < OVERHEAD && Terminates(bs, s, maxLen) && BodyLength(bs, s) > Budget(maxLen)
    ensures !FilesFit(bs, s, maxLen, total)
  {
    hide AlignUp, AlignDown, DivRoundUp, BodyLength, LastBlock, MoveChunks, FilesFit;
    EmptyBody(bs);
    assert s[..|s|] == s;
    assert Cut(bs, Budget(maxLen), s, 0) < |s|;
    var r := MoveChunks(bs, s, maxLen);
    CutMeansMore(bs, s, maxLen);
    FilesFitNext(bs, s, maxLen, total);
    if BodyLength(bs, r.moved) < 28 {
      ShortStart(bs, s, maxLen);
      HeadFileLong(bs, r.rest, maxLen, total);
      if MoveChunks(bs, r.rest, maxLen).more {
        FilesFitNext(bs, r.rest, maxLen, total);
      } else {
        FilesFitOnly(bs, r.rest, maxLen, total);
      }
    }
  }

  /** Exactly which resparsed images keep the limit: from 69 on all; from 56 to 68 those whose
      blocks, cut where 32 bits demand it, each make a file below the limit; below 56 those that
      make one such file. */
  lemma FilesFitIff(bs: nat, s: seq<Block>, maxLen: nat, total: nat)
    requires bs > 0 && maxLen < B32 && Terminates(bs, s, maxLen)
    ensures OVERHEAD <= maxLen <= 68 && HeadCut(maxLen) < bs ==> forall i :: 0 <= i < |s| ==> s[i].len == 0
    ensures FilesFit(bs, s, maxLen, total) <==>
              if maxLen < OVERHEAD then FileLength(bs, total, s) < maxLen
              else if maxLen <= 68 then forall b :: b in Singles(bs, s, HeadCut(maxLen)) ==> FileLength(bs, total, [b]) < maxLen
              else true
  {
    hide FilesFit, BodyLength, MoveChunks;
    if maxLen < OVERHEAD {
      if BodyLength(bs, s) > Budget(maxLen) {
        WrappedTooLong(bs, s, maxLen, total);
      } else {
        LimitBelowOverhead(bs, s, maxLen);
        FilesFitOnly(bs, s, maxLen, total);
      }
    } else if maxLen <= 68 {
      SinglesFitIff(bs, s, maxLen, total);
    } else {
      FilesFitLimit(bs, s, maxLen, total);
    }
  }

  predicate NoneEmpty(s: seq<Block>)
  {
    forall i :: 0 <= i < |s| ==> s[i].len > 0
  }

  /** The promise that every file is shorter than the limit, for all images of non-empty blocks
      with which resparsing ends. */
  ghost predicate LimitKept(bs: nat, maxLen: nat)
    requires bs > 0
  {
    forall s, total: nat :: Terminates(bs, s, maxLen) && NoneEmpty(s) ==> FilesFit(bs, s, maxLen, total)
  }

  /** It holds if and only if the limit is at least 68. */
  lemma LimitKeptIff(bs: nat, maxLen: nat)
    requires 0 < bs && bs + CHUNK_HEADER_LEN <= B32 && maxLen < B32
    ensures LimitKept(bs, maxLen) <==> maxLen >= 68
  {
    hide FilesFit;
    if maxLen >= 68 {
      forall s, total: nat | Terminates(bs, s, maxLen) && NoneEmpty(s) ensures FilesFit(bs, s, maxLen, total) {
        if maxLen == 68 {
          NothingAt68(bs, s);
          NothingFits(bs, maxLen, total);
        } else {
          FilesFitLimit(bs, s, maxLen, total);
        }
      }
    } else {
      FillExceedsLimit(bs, maxLen);
      assert NoneEmpty([Block(1, bs, Fill(0))]);
    }
  }

  lemma NothingAt68(bs: nat, s: seq<Block>)
    requires bs > 0 && Terminates(bs, s, 68)
    ensures NoneEmpty(s) ==> s == []
  {
    if s != [] {
      assert HeadFits(Budget(68), s[0]);
      assert s[0].len == 0;
    }
  }

  /** Below 68, one block of a fill behind a gap, with a gap behind it, makes a file of 68 bytes. */
  lemma FillExceedsLimit(bs: nat, maxLen: nat)
    requires 0 < bs && bs + CHUNK_HEADER_LEN <= B32 && maxLen < 68
    ensures var s := [Block(1, bs, Fill(0))];
            Terminates(bs, s, maxLen) && FileLength(bs, 3, s) == 68 && !FilesFit(bs, s, maxLen, 3)
  {
    hide Singles, FilesFit, FileLength, BodyLength, DivRoundUp, AlignUp, AlignDown;
    var s := [Block(1, bs, Fill(0))];
    OneChunk(bs, 3, s[0]);
    OneBlock(bs);
    if maxLen >= OVERHEAD {
      HeadTaken(bs, s, maxLen);
      SinglesFitIff(bs, s, maxLen, 3);
    } else {
      FilesFitIff(bs, s, maxLen, 3);
    }
  }

  /** From 56 to 67 a block as long as the block size is taken whole. */
  lemma HeadTaken(bs: nat, s: seq<Block>, maxLen: nat)
    requires 0 < bs && bs + CHUNK_HEADER_LEN <= B32 && OVERHEAD <= maxLen < 68 && s != [] && s[0].len <= bs
    ensures Terminates(bs, s, maxLen) && HeadCut(maxLen) >= bs && s[0] in Singles(bs, s, HeadCut(maxLen))
  {
    hide AlignDown;
    assert HeadCut(maxLen) == B32 + maxLen - 68;
    Reaches(HeadCut(maxLen), bs);
    AtLeastBlock(HeadCut(maxLen), bs);
    WholeFirst(bs, s, HeadCut(maxLen));
  }

  lemma AtLeastBlock(x: nat, bs: nat)
    requires 0 < bs && AlignDown(x, bs) > 0
    ensures AlignDown(x, bs) >= bs
  {
    MulMonotone(1, x / bs, bs);
  }

  /** One block of data is moved whole and makes a file longer than the limit. */
  lemma DataExceedsLimit(bs: nat, maxLen: nat)
    requires 4 <= bs && bs + CHUNK_HEADER_LEN <= B32 && OVERHEAD <= maxLen < 68
    ensures var s := [Block(1, bs, Data(0))];
            Terminates(bs, s, maxLen) && FileLength(bs, 3, s) == 64 + bs && !FilesFit(bs, s, maxLen, 3)
  {
    hide Singles, FilesFit, FileLength, BodyLength, DivRoundUp, AlignUp, AlignDown;
    var s := [Block(1, bs, Data(0))];
    OneChunk(bs, 3, s[0]);
    OneBlock(bs);
    HeadTaken(bs, s, maxLen);
    SinglesFitIff(bs, s, maxLen, 3);
  }

  /** With a limit of 68 only an empty fill can reach it. */
  lemma EmptyFillReachesLimit(bs: nat)
    requires 12 < bs
    ensures var s := [Block(1, 0, Fill(0))];
            Terminates(bs, s, 68) && FileLength(bs, 3, s) == 68 && !FilesFit(bs, s, 68, 3)
  {
    var s := [Block(1, 0, Fill(0))];
    OneChunk(bs, 3, s[0]);
    assert DivRoundUp(0, bs) == 0;
    SinglesFitIff(bs, s, 68, 3);
    WholeFirst(bs, s, HeadCut(68));
  }

  lemma WholeFirst(bs: nat, s: seq<Block>, room: nat)
    requires bs > 0 && s != [] && s[0].len <= AlignDown(room, bs)
    requires room < bs ==> forall i :: 0 <= i < |s| ==> s[i].len == 0
    ensures Singles(bs, s, room) != [] && Singles(bs, s, room)[0] == s[0]
  {
  }

  lemma OneChunk(bs: nat, total: nat, b: Block)
    requires bs > 0
    ensures FileLength(bs, total, [b]) == SPARSE_HEADER_LEN + GapLength(b, 0) + ChunkLength(bs, b)
                                          + if EndBlock(bs, b) < total then CHUNK_HEADER_LEN else 0
  {
    assert [b][..0] == [] && [b][|[b]| - 1] == b;
    EmptyBody(bs);
  }

  lemma OneBlock(bs: nat)
    requires bs > 0
    ensures DivRoundUp(bs, bs) == 1 && AlignUp(bs, bs) == bs
  {
    hide DivRoundUp, AlignUp;
    BlockOrder(DivRoundUp(bs, bs), 1, bs);
    BlockOrder(2, DivRoundUp(bs, bs), bs);
    assert 2 * bs == bs + bs && 1 * bs == bs;
  }
}
