/** Sparse images as other writers may lay them out: longer headers, checksums, chunks of unknown
    type. What the reader makes of them, from their bytes. */
module SparseLayout {
  import opened Words
  import opened Blocks
  import opened Resparse
  import opened SparseFormat
  import opened SparseReader

  /** A chunk of the three kinds, a checksum, or a chunk of unknown type, which is taken to have no data. */
  datatype Piece =
    | Known(reserved: u16, chunk: Chunk)
    | Checksum(reserved: u16, ignored: u32, crc: u32)
    | Unknown(header: ChunkHeader)
  {
    function Header(extra: seq<byte>): ChunkHeader
    {
      match this
      case Known(r, c) => c.Header().(reserved := r, totalSz := (c.Header().totalSz + |extra|) % B32)
      case Checksum(r, n, _) => ChunkHeader(CHUNK_TYPE_CRC32, r, n, (CHUNK_HEADER_LEN + |extra| + 4) % B32)
      case Unknown(h) => h
    }

    function Payload(): seq<byte>
    {
      match this
      case Known(_, c) => c.Payload()
      case Checksum(_, _, v) => Le32(v)
      case Unknown(_) => []
    }

    /** The header, what it is longer by, and the data. */
    function Bytes(extra: seq<byte>): (s: seq<byte>)
      ensures |s| == CHUNK_HEADER_LEN + |extra| + |Payload()|
    {
      Header(extra).Bytes() + extra + Payload()
    }

    function Blocks(): nat
    {
      if Known? then chunk.blocks else 0
    }

    /** How many blocks are added. */
    function Count(): nat
    {
      if Known? && !chunk.Skip? then 1 else 0
    }

    ghost predicate Fits(bs: nat, extra: seq<byte>)
    {
      match this
      case Known(_, c) => c.Fits(bs) && CHUNK_HEADER_LEN + |extra| + |c.Payload()| < B32
      case Checksum(_, _, _) => true
      case Unknown(h) => h.kind !in {CHUNK_TYPE_RAW, CHUNK_TYPE_FILL, CHUNK_TYPE_DONT_CARE, CHUNK_TYPE_CRC32}
    }
  }

  function Laid(ps: seq<Piece>, extra: seq<byte>): seq<byte>
  {
    if ps == [] then [] else ps[0].Bytes(extra) + Laid(ps[1..], extra)
  }

  function Total(ps: seq<Piece>): nat
  {
    if ps == [] then 0 else ps[0].Blocks() + Total(ps[1..])
  }

  /** What a piece at block cur adds: a fill its value, raw data the place in the file where just
      these bytes stand. */
  ghost predicate Adds(bs: nat, fd: int, buf: seq<byte>, p: Piece, cur: nat, adds: seq<Block>)
  {
    if p.Known? && p.chunk.FillWith? then adds == [Block(cur, p.chunk.blocks * bs, Fill(p.chunk.val))]
    else if p.Known? && p.chunk.Raw? then
      && |adds| == 1 && adds[0].block == cur && adds[0].len == |p.chunk.data| == p.chunk.blocks * bs
      && adds[0].backing.Fd? && adds[0].backing.fd == fd && HoldsAt(buf, adds[0].backing.offset, p.chunk.data)
    else adds == []
  }

  ghost predicate HoldsAt(buf: seq<byte>, o: int, data: seq<byte>)
  {
    0 <= o && o + |data| <= |buf| && buf[o..o + |data|] == data
  }

  /** The pieces one after the other from block cur on. */
  ghost predicate AllAdds(bs: nat, fd: int, buf: seq<byte>, ps: seq<Piece>, cur: nat, adds: seq<Block>)
  {
    if ps == [] then adds == []
    else
      var n := ps[0].Count();
      && n <= |adds| && Adds(bs, fd, buf, ps[0], cur, adds[..n])
      && AllAdds(bs, fd, buf, ps[1..], cur + ps[0].Blocks(), adds[n..])
  }

  lemma PieceInPlace(p: Piece, extra: seq<byte>, buf: seq<byte>, off: nat)
    requires HoldsAt(buf, off, p.Bytes(extra))
    ensures off + CHUNK_HEADER_LEN <= |buf| && ChunkHeader.Read(buf, off) == p.Header(extra)
    ensures HoldsAt(buf, off + CHUNK_HEADER_LEN + |extra|, p.Payload())
  {
    hide Piece.Header, Piece.Payload, ChunkHeader.Read, ChunkHeader.Bytes;
    var bytes := p.Bytes(extra);
    assert buf[off..off + CHUNK_HEADER_LEN] == buf[off..off + |bytes|][..CHUNK_HEADER_LEN] == p.Header(extra).Bytes();
    ChunkHeaderRoundTrip(p.Header(extra), buf, off);
    var o := CHUNK_HEADER_LEN + |extra|;
    assert buf[off + o..off + |bytes|] == buf[off..off + |bytes|][o..] == p.Payload();
  }

  lemma ReadPiece(p: Piece, extra: seq<byte>, bs: nat, fd: int, buf: seq<byte>, off: nat, cur: nat)
    requires bs > 0 && p.Fits(bs, extra) && CHUNK_HEADER_LEN + |extra| < B16 && HoldsAt(buf, off, p.Bytes(extra))
    ensures var step := ProcessChunk(buf, fd, off, CHUNK_HEADER_LEN + |extra|, bs, cur);
            && step.Read? && step.blocks == p.Blocks() && step.next == off + |p.Bytes(extra)|
            && |AddsOfStep(step.add)| == p.Count() && Adds(bs, fd, buf, p, cur, AddsOfStep(step.add))
  {
    hide Piece.Bytes, ChunkHeader.Read, Get32, Le32, Piece.Header, Piece.Payload;
    PieceInPlace(p, extra, buf, off);
    SizeOf(p, extra, bs);
    if p.Known? {
      hide Piece.Fits, HoldsAt, Adds, ProcessChunk;
      ReadKnown(p, bs, fd, buf, off, CHUNK_HEADER_LEN + |extra|, cur);
    } else {
      assert HoldsAt(buf, off + CHUNK_HEADER_LEN + |extra|, p.Payload());
      assert |p.Bytes(extra)| == CHUNK_HEADER_LEN + |extra| + |p.Payload()|;
      OtherHeader(p, extra);
    }
  }

  lemma OtherHeader(p: Piece, extra: seq<byte>)
    requires !p.Known?
    ensures p.Header(extra).kind == if p.Checksum? then CHUNK_TYPE_CRC32 else p.header.kind
    ensures |p.Payload()| == if p.Checksum? then 4 else 0
  {
  }

  /** The size field says how long the data is, and the count how many blocks there are. */
  lemma SizeOf(p: Piece, extra: seq<byte>, bs: nat)
    requires bs > 0 && p.Fits(bs, extra) && CHUNK_HEADER_LEN + |extra| < B16
    ensures !p.Unknown? ==> (p.Header(extra).totalSz - (CHUNK_HEADER_LEN + |extra|)) % B32 == |p.Payload()|
    ensures p.Known? ==>
              && p.Header(extra).kind == p.chunk.Header().kind && p.Header(extra).blocks == p.chunk.blocks < 0x8000_0000
              && p.Payload() == p.chunk.Payload()
              && (!p.chunk.Skip? ==> p.chunk.blocks * bs < B32) && (p.chunk.Raw? ==> |p.chunk.data| == p.chunk.blocks * bs)
  {
    hide Le32;
    if p.Known? {
      ChunkSize(p.chunk, bs);
      hide Chunk.Payload, Chunk.Header, Chunk.Fits;
      SizeField(p.chunk.Header().totalSz, |p.chunk.Payload()|, |extra|);
    } else if p.Checksum? {
      SmallMod(CHUNK_HEADER_LEN + |extra| + 4);
    }
  }

  lemma ChunkSize(c: Chunk, bs: nat)
    requires c.Fits(bs)
    ensures c.Header().totalSz == CHUNK_HEADER_LEN + |c.Payload()| && c.Header().blocks == c.blocks < 0x8000_0000
    ensures (!c.Skip? ==> c.blocks * bs < B32) && (c.Raw? ==> |c.data| == c.blocks * bs)
  {
    hide Le32;
    SmallMod(c.blocks);
    if c.Raw? {
      SmallMod(CHUNK_HEADER_LEN + |c.data|);
    }
  }

  lemma SizeField(total: nat, data: nat, extra: nat)
    requires total == CHUNK_HEADER_LEN + data && total + extra < B32
    ensures ((total + extra) % B32 - (CHUNK_HEADER_LEN + extra)) % B32 == data
  {
    SmallMod(total + extra);
  }

  lemma ReadKnown(p: Piece, bs: nat, fd: int, buf: seq<byte>, off: nat, hdrSz: nat, cur: nat)
    requires bs > 0 && p.Known? && hdrSz >= CHUNK_HEADER_LEN && off + CHUNK_HEADER_LEN <= |buf| && p.chunk.blocks < 0x8000_0000
    requires var h := ChunkHeader.Read(buf, off);
             && h.kind == p.chunk.Header().kind && h.blocks == p.chunk.blocks
             && (h.totalSz - hdrSz) % B32 == |p.chunk.Payload()|
    requires !p.chunk.Skip? ==> p.chunk.blocks * bs < B32
    requires p.chunk.Raw? ==> |p.chunk.data| == p.chunk.blocks * bs
    requires HoldsAt(buf, off + hdrSz, p.chunk.Payload())
    ensures var step := ProcessChunk(buf, fd, off, hdrSz, bs, cur);
            && step.Read? && step.blocks == p.Blocks() && step.next == off + hdrSz + |p.chunk.Payload()|
            && |AddsOfStep(step.add)| == p.Count() && Adds(bs, fd, buf, p, cur, AddsOfStep(step.add))
  {
    hide ChunkHeader.Read, Get32, Le32;
    var n := p.chunk.blocks;
    if p.chunk.Skip? {
    } else {
      SmallMod(n * bs);
      if p.chunk.Raw? {
        QuotientOfMultiple(n, bs);
        assert ProcessChunk(buf, fd, off, hdrSz, bs, cur)
            == Read(Some(Block(cur, n * bs, Fd(fd, off + hdrSz))), n, off + hdrSz + n * bs);
      } else {
        Get32Le32(buf, off + hdrSz, p.chunk.val);
        assert ProcessChunk(buf, fd, off, hdrSz, bs, cur)
            == Read(Some(Block(cur, n * bs, Fill(p.chunk.val))), n, off + hdrSz + 4);
      }
    }
  }

  /** Pieces are read as what they say, and then what follows them. */
  lemma {:induction false} ReadPieces(ps: seq<Piece>, extra: seq<byte>, bs: nat, fd: int, buf: seq<byte>, off: nat, cur: nat, more: nat)
    returns (adds: seq<Block>)
    requires bs > 0 && CHUNK_HEADER_LEN + |extra| < B16 && forall i :: 0 <= i < |ps| ==> ps[i].Fits(bs, extra)
    requires HoldsAt(buf, off, Laid(ps, extra)) && cur + Total(ps) < B32
    ensures AllAdds(bs, fd, buf, ps, cur, adds)
    ensures ReadChunks(buf, fd, off, |ps| + more, CHUNK_HEADER_LEN + |extra|, bs, cur)
         == Prefixed(adds, ReadChunks(buf, fd, off + |Laid(ps, extra)|, more, CHUNK_HEADER_LEN + |extra|, bs, cur + Total(ps)))
  {
    hide ProcessChunk, ReadChunks, Laid, Total, AllAdds, Adds, Prefixed, HoldsAt, AddsOfStep, Piece.Bytes, Piece.Fits, Piece.Blocks,
         Piece.Count, Piece.Payload, Piece.Header;
    var hdrSz := CHUNK_HEADER_LEN + |extra|;
    if ps == [] {
      adds := [];
      NothingBefore(bs, fd, buf, extra, cur, ReadChunks(buf, fd, off, more, hdrSz, bs, cur));
    } else {
      var p, tail := ps[0], ps[1..];
      LaidSize(ps, extra);
      LaidSplit(ps, extra, buf, off);
      ReadPiece(p, extra, bs, fd, buf, off, cur);
      var rest := ReadPieces(tail, extra, bs, fd, buf, off + |p.Bytes(extra)|, cur + p.Blocks(), more);
      var step := ProcessChunk(buf, fd, off, hdrSz, bs, cur);
      adds := AddsOfStep(step.add) + rest;
      AddsNext(bs, fd, buf, ps, cur, AddsOfStep(step.add), rest);
      var last := ReadChunks(buf, fd, off + |Laid(ps, extra)|, more, hdrSz, bs, cur + Total(ps));
      StepThenRest(buf, fd, off, |tail| + more, hdrSz, bs, cur, step, rest, last);
    }
  }

  lemma AddsNext(bs: nat, fd: int, buf: seq<byte>, ps: seq<Piece>, cur: nat, first: seq<Block>, rest: seq<Block>)
    requires ps != [] && |first| == ps[0].Count() && Adds(bs, fd, buf, ps[0], cur, first)
    requires AllAdds(bs, fd, buf, ps[1..], cur + ps[0].Blocks(), rest)
    ensures AllAdds(bs, fd, buf, ps, cur, first + rest)
  {
    hide Adds, Piece.Count, Piece.Blocks;
    assert (first + rest)[..|first|] == first && (first + rest)[|first|..] == rest;
  }

  lemma LaidSize(ps: seq<Piece>, extra: seq<byte>)
    requires ps != []
    ensures |Laid(ps, extra)| == |ps[0].Bytes(extra)| + |Laid(ps[1..], extra)| && Total(ps) == ps[0].Blocks() + Total(ps[1..])
  {
    hide Piece.Bytes;
  }

  lemma NothingBefore(bs: nat, fd: int, buf: seq<byte>, extra: seq<byte>, cur: nat, r: Outcome)
    ensures Prefixed([], r) == r && AllAdds(bs, fd, buf, [], cur, []) && |Laid([], extra)| == Total([]) == 0
  {
    if r.Done? {
      assert [] + r.adds == r.adds;
    }
  }

  /** The first chunk, the other pieces, and then the rest. */
  lemma StepThenRest(buf: seq<byte>, fd: int, off: nat, n: nat, hdrSz: nat, bs: nat, cur: nat, step: Step, adds: seq<Block>, last: Outcome)
    requires bs > 0 && hdrSz >= CHUNK_HEADER_LEN && step == ProcessChunk(buf, fd, off, hdrSz, bs, cur) && step.Read?
    requires cur + step.blocks < B32 && ReadChunks(buf, fd, step.next, n, hdrSz, bs, cur + step.blocks) == Prefixed(adds, last)
    ensures ReadChunks(buf, fd, off, n + 1, hdrSz, bs, cur) == Prefixed(AddsOfStep(step.add) + adds, last)
  {
    hide ProcessChunk;
    PrefixedTwice(AddsOfStep(step.add), adds, last);
  }

  lemma LaidSplit(ps: seq<Piece>, extra: seq<byte>, buf: seq<byte>, off: nat)
    requires ps != [] && HoldsAt(buf, off, Laid(ps, extra))
    ensures HoldsAt(buf, off, ps[0].Bytes(extra)) && HoldsAt(buf, off + |ps[0].Bytes(extra)|, Laid(ps[1..], extra))
  {
    hide Piece.Bytes;
    var first, rest := ps[0].Bytes(extra), Laid(ps[1..], extra);
    assert Laid(ps, extra) == first + rest;
    hide Laid, HoldsAt;
    HoldsBoth(buf, off, first, rest);
  }

  lemma HoldsBoth(buf: seq<byte>, off: nat, a: seq<byte>, b: seq<byte>)
    requires HoldsAt(buf, off, a + b)
    ensures HoldsAt(buf, off, a) && HoldsAt(buf, off + |a|, b)
  {
    SplitInPlace(buf, off, a, b);
  }

  /** Reading a file gets past the header and the pieces to whatever is behind them. */
  lemma ReadFront(h: SparseHeader, skip: seq<byte>, ps: seq<Piece>, extra: seq<byte>, behind: seq<byte>, fd: int)
    returns (adds: seq<Block>)
    requires h.blkSz > 0 && h.totalChunks >= |ps| && Total(ps) < B32 && forall i :: 0 <= i < |ps| ==> ps[i].Fits(h.blkSz, extra)
    requires h.fileHdrSz == SPARSE_HEADER_LEN + |skip| && h.chunkHdrSz == CHUNK_HEADER_LEN + |extra|
    ensures var buf, at := h.Bytes() + skip + Laid(ps, extra) + behind, h.fileHdrSz + |Laid(ps, extra)|;
            && AllAdds(h.blkSz, fd, buf, ps, 0, adds)
            && |buf| >= SPARSE_HEADER_LEN && SparseHeader.Read(buf) == h && at <= |buf| && buf[at..] == behind
            && ReadChunks(buf, fd, h.fileHdrSz, h.totalChunks, h.chunkHdrSz, h.blkSz, 0)
            == Prefixed(adds, ReadChunks(buf, fd, at, h.totalChunks - |ps|, h.chunkHdrSz, h.blkSz, Total(ps)))
  {
    hide Laid, Total, Piece.Fits, AllAdds, SparseHeader.Bytes, SparseHeader.Read, ReadChunks, Prefixed;
    var buf := h.Bytes() + skip + Laid(ps, extra) + behind;
    assert buf == h.Bytes() + (skip + Laid(ps, extra) + behind);
    SparseHeaderRoundTrip(h, skip + Laid(ps, extra) + behind);
    assert HoldsAt(buf, h.fileHdrSz, Laid(ps, extra));
    adds := ReadPieces(ps, extra, h.blkSz, fd, buf, h.fileHdrSz, 0, h.totalChunks - |ps|);
  }

  /** A file with any accepted header, and pieces that fit its fields, is read as the pieces say,
      if they stand for as many blocks as the header announces; otherwise it is refused. */
  lemma ImportLaid(h: SparseHeader, skip: seq<byte>, ps: seq<Piece>, extra: seq<byte>, behind: seq<byte>, fd: int)
    requires h.magic == 0xed26ff3a && h.major == 1 && h.blkSz > 0 && h.totalChunks == |ps|
    requires h.fileHdrSz == SPARSE_HEADER_LEN + |skip| && h.chunkHdrSz == CHUNK_HEADER_LEN + |extra|
    requires Total(ps) < B32 && forall i :: 0 <= i < |ps| ==> ps[i].Fits(h.blkSz, extra)
    ensures var buf := h.Bytes() + skip + Laid(ps, extra) + behind;
            var r := ImportOf(buf, fd);
            if h.totalBlks != Total(ps) then r == Refused
            else r.NewFile? && r.bs == h.blkSz && r.len == ToI64(Total(ps) * h.blkSz) && AllAdds(h.blkSz, fd, buf, ps, 0, r.adds)
  {
    hide Laid, Total, Piece.Fits, AllAdds, SparseHeader.Bytes, SparseHeader.Read, ProcessChunk;
    var adds := ReadFront(h, skip, ps, extra, behind, fd);
    assert adds + [] == adds;
  }

  /** A chunk header no writer of the format makes: sizes that do not belong to the kind, or a count
      that is negative as an int. */
  predicate Wrong(h: ChunkHeader, hdrSz: nat, bs: nat)
  {
    var size := (h.totalSz - hdrSz) % B32;
    || (h.kind == CHUNK_TYPE_RAW && size != h.blocks * bs)
    || (h.kind == CHUNK_TYPE_FILL && size != 4)
    || (h.kind == CHUNK_TYPE_DONT_CARE && size != 0)
    || (h.kind == CHUNK_TYPE_CRC32 && size != 4)
    || (h.kind in {CHUNK_TYPE_RAW, CHUNK_TYPE_FILL, CHUNK_TYPE_DONT_CARE} && h.blocks >= 0x8000_0000)
  }

  /** A wrong chunk anywhere, or an end before the last chunk's header, refuses the whole file. */
  lemma WrongChunkRefused(h: SparseHeader, skip: seq<byte>, ps: seq<Piece>, extra: seq<byte>, c: ChunkHeader, behind: seq<byte>, fd: int)
    requires h.magic == 0xed26ff3a && h.major == 1 && h.blkSz > 0 && h.totalChunks > |ps|
    requires h.fileHdrSz == SPARSE_HEADER_LEN + |skip| && h.chunkHdrSz == CHUNK_HEADER_LEN + |extra|
    requires Total(ps) < B32 && forall i :: 0 <= i < |ps| ==> ps[i].Fits(h.blkSz, extra)
    requires behind == [] || (Wrong(c, h.chunkHdrSz, h.blkSz) && c.Bytes() <= behind)
    ensures ImportOf(h.Bytes() + skip + Laid(ps, extra) + behind, fd) == Refused
  {
    hide Laid, Total, Piece.Fits, AllAdds, SparseHeader.Bytes, SparseHeader.Read, Wrong, ReadChunks, ChunkHeader.Bytes,
         ImportOf;
    var adds := ReadFront(h, skip, ps, extra, behind, fd);
    var buf := h.Bytes() + skip + Laid(ps, extra) + behind;
    NoStep(buf, fd, h.fileHdrSz + |Laid(ps, extra)|, h.chunkHdrSz, h.blkSz, Total(ps), c, behind, h.totalChunks - |ps|);
    ErrorRefused(buf, fd);
  }

  lemma ErrorRefused(buf: seq<byte>, fd: int)
    requires |buf| >= SPARSE_HEADER_LEN
    ensures var h := SparseHeader.Read(buf);
            KnownHeader(h) && h.blkSz > 0 && ReadChunks(buf, fd, h.fileHdrSz, h.totalChunks, h.chunkHdrSz, h.blkSz, 0) == Error ==>
              ImportOf(buf, fd) == Refused
  {
    hide ReadChunks, SparseHeader.Read;
  }

  lemma NoStep(buf: seq<byte>, fd: int, at: nat, hdrSz: nat, bs: nat, cur: nat, c: ChunkHeader, behind: seq<byte>, n: nat)
    requires n > 0 && bs > 0 && hdrSz >= CHUNK_HEADER_LEN && at <= |buf| && buf[at..] == behind
    requires behind == [] || (Wrong(c, hdrSz, bs) && c.Bytes() <= behind)
    ensures ReadChunks(buf, fd, at, n, hdrSz, bs, cur) == Error
  {
    hide ChunkHeader.Read, ChunkHeader.Bytes, Get32;
    if behind != [] {
      assert buf[at..at + CHUNK_HEADER_LEN] == behind[..CHUNK_HEADER_LEN] == c.Bytes();
      ChunkHeaderRoundTrip(c, buf, at);
      var size := (c.totalSz - hdrSz) % B32;
      if c.kind == CHUNK_TYPE_RAW && size % bs == 0 {
        assert size == size / bs * bs;
      }
    }
    assert ProcessChunk(buf, fd, at, hdrSz, bs, cur) == Failed;
    hide ProcessChunk;
  }

  /** Every file without a header of this format is refused. */
  lemma HeaderRefused(buf: seq<byte>, fd: int)
    requires |buf| < SPARSE_HEADER_LEN || buf[..4] != [0x3a, 0xff, 0x26, 0xed] || Get16(buf, 4) != 1 || Get16(buf, 8) < 28 || Get16(buf, 10) < 12
    ensures ImportOf(buf, fd) == Refused
  {
    hide ReadSparse;
    if |buf| >= SPARSE_HEADER_LEN && Get32(buf, 0) == 0xed26ff3a {
      MagicBytes(buf[0], buf[1], buf[2], buf[3]);
      assert buf[..4] == [buf[0], buf[1], buf[2], buf[3]];
    }
  }

  lemma MagicBytes(a: byte, b: byte, c: byte, d: byte)
    requires (a as int) + (b as int) * 0x100 + (c as int) * 0x1_0000 + (d as int) * 0x100_0000 == 0xed26ff3a
    ensures a == 0x3a && b == 0xff && c == 0x26 && d == 0xed
  {
  }
}
