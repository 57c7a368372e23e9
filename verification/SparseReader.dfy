/** Reading a sparse image (sparse_file_read_sparse) and the round trip through the writer. */
module SparseReader {
  import opened Words
  import opened Blocks
  import opened Queue
  import opened Resparse
  import opened SparseFormat
  import opened SparseWriter

  // ------------------------------------------------- sparse_file_read_sparse

  /** The checks on the header. */
  predicate KnownHeader(h: SparseHeader)
  {
    && h.magic == SPARSE_HEADER_MAGIC && h.major == 1
    && h.fileHdrSz >= SPARSE_HEADER_LEN && h.chunkHdrSz >= CHUNK_HEADER_LEN
  }

  /** The result of reading: the blocks to add in order, or an error. */
  function ReadSparse(buf: seq<byte>, fd: int, bs: nat): Outcome
    requires bs > 0
  {
    if |buf| < SPARSE_HEADER_LEN then Error
    else
      var h := SparseHeader.Read(buf);
      if !KnownHeader(h) then Error
      else
        match ReadChunks(buf, fd, h.fileHdrSz, h.totalChunks, h.chunkHdrSz, bs, 0)
        case Error => Error
        case Done(adds, cur) => if h.totalBlks != cur then Error else Done(adds, cur)
  }

  method SparseFileReadSparse(buf: seq<byte>, fd: int, bs: nat) returns (r: Outcome)
    requires bs > 0
    ensures r == ReadSparse(buf, fd, bs)
  {
    hide ProcessChunk;
    if |buf| < SPARSE_HEADER_LEN {
      return Error;
    }
    var h := SparseHeader.Read(buf);
    if h.magic != SPARSE_HEADER_MAGIC || h.major != 1 || h.fileHdrSz < SPARSE_HEADER_LEN || h.chunkHdrSz < CHUNK_HEADER_LEN {
      return Error;
    }
    var off: nat, cur: nat, i := h.fileHdrSz, 0, 0;
    var adds: seq<Block> := [];
    ghost var whole := ReadChunks(buf, fd, off, h.totalChunks, h.chunkHdrSz, bs, cur);
    while i < h.totalChunks
      invariant 0 <= i <= h.totalChunks
      invariant whole == Prefixed(adds, ReadChunks(buf, fd, off, h.totalChunks - i, h.chunkHdrSz, bs, cur))
    {
      var step := ProcessChunk(buf, fd, off, h.chunkHdrSz, bs, cur);
      if step.Failed? {
        return Error;
      }
      PrefixedTwice(adds, AddsOfStep(step.add),
                    ReadChunks(buf, fd, step.next, h.totalChunks - i - 1, h.chunkHdrSz, bs, (cur + step.blocks) % B32));
      adds := adds + AddsOfStep(step.add);
      off, cur, i := step.next, (cur + step.blocks) % B32, i + 1;
    }
    if h.totalBlks != cur {
      return Error;
    }
    return Done(adds, cur);
  }

  /** Blocks added before the rest of the stream is read. */
  ghost function Prefixed(adds: seq<Block>, r: Outcome): Outcome
  {
    match r case Error => Error case Done(more, cur) => Done(adds + more, cur)
  }

  lemma PrefixedTwice(a: seq<Block>, b: seq<Block>, r: Outcome)
    ensures Prefixed(a, Prefixed(b, r)) == Prefixed(a + b, r)
  {
    if r.Done? {
      assert a + (b + r.adds) == (a + b) + r.adds;
    }
  }

  // -------------------------------------------------------- sparse_file_import

  /** The result of an import: no file, or a new one with the block size and length its header
      gives and the blocks to add in order. A block size of 0 is not refused; what follows may
      divide by it. */
  datatype Import = Refused | ZeroBlocks | NewFile(bs: nat, len: i64, adds: seq<Block>)

  function ImportOf(buf: seq<byte>, fd: int): Import
  {
    if |buf| < SPARSE_HEADER_LEN then Refused
    else
      var h := SparseHeader.Read(buf);
      if !KnownHeader(h) then Refused
      else if h.blkSz == 0 then ZeroBlocks
      else
        match ReadSparse(buf, fd, h.blkSz)
        case Error => Refused
        case Done(adds, _) => NewFile(h.blkSz, ToI64(h.totalBlks * h.blkSz), adds)
  }

  /** sparse_file_import: the header is read twice, here for block size and length. */
  method SparseFileImport(buf: seq<byte>, fd: int) returns (r: Import)
    ensures r == ImportOf(buf, fd)
    ensures r.NewFile? ==> |buf| >= 20 && r.bs == Get32(buf, 12) > 0 && r.len == ToI64(Get32(buf, 16) * Get32(buf, 12))
    ensures r.NewFile? ==> ReadSparse(buf, fd, r.bs) == Done(r.adds, Get32(buf, 16))
    ensures r.Refused? && |buf| >= SPARSE_HEADER_LEN && Get32(buf, 12) > 0 ==> ReadSparse(buf, fd, Get32(buf, 12)) == Error
  {
    hide ReadChunks, Get32, Get16;
    if |buf| < SPARSE_HEADER_LEN {
      return Refused;
    }
    var h := SparseHeader.Read(buf);
    if h.magic != SPARSE_HEADER_MAGIC || h.major != 1 || h.fileHdrSz < SPARSE_HEADER_LEN || h.chunkHdrSz < CHUNK_HEADER_LEN {
      return Refused;
    }
    if h.blkSz == 0 {
      return ZeroBlocks;
    }
    var len := ToI64(h.totalBlks * h.blkSz);
    var read := SparseFileReadSparse(buf, fd, h.blkSz);
    match read {
      case Error => r := Refused;
      case Done(adds, _) => r := NewFile(h.blkSz, len, adds);
    }
  }

  // ------------------------------------------------------ padded content

  /** What a block occupies once it is written: whole blocks, zero-padded for data; a fill
      chunk repeats its value to the end of its last block. */
  ghost function PaddedOf(g: Geometry, b: Block, o: int): Option<byte>
    requires g.bs > 0
  {
    var i := o - Start(g, b);
    if 0 <= i < AlignUp(b.len, g.bs)
    then Some(if b.backing.Fill? || i < b.len then ByteAt(g.st, b.backing, i) else 0)
    else None
  }

  // A block is promised to be padded with zeros. For data that is so by definition; a fill goes on
  // with its value.

  /** Every byte between the end of b and the end of its last block is zero. */
  ghost predicate ZeroPadded(g: Geometry, b: Block)
    requires g.bs > 0
  {
    forall o :: End(g, b) <= o < Start(g, b) + AlignUp(b.len, g.bs) ==> PaddedOf(g, b, o) == Some(0)
  }

  /** The value of a number of bytes of the fill word. */
  function BytesValue(n: nat): nat
  {
    if n == 0 then 1 else if n == 1 then 0x100 else if n == 2 then 0x1_0000 else if n == 3 then 0x100_0000 else B32
  }

  /** A fill is padded with zeros if and only if it needs no padding, or less than one word of it
      and the bytes of the value from there on are zero, or the value is zero. */
  lemma FillZeroPaddedIff(g: Geometry, b: Block, v: u32)
    requires g.Valid() && b.backing == Fill(v)
    ensures var pad := AlignUp(b.len, g.bs) - b.len;
            ZeroPadded(g, b) <==> pad == 0 || v == 0 || (pad < 4 && v < BytesValue(b.len % 4))
  {
    var end, pad := AlignUp(b.len, g.bs), AlignUp(b.len, g.bs) - b.len;
    MultipleOfFour(DivRoundUp(b.len, g.bs), g.bs);
    hide AlignUp;
    var r := b.len % 4;
    FillTail(v, b.len, end);
    forall i | b.len <= i < end ensures PaddedOf(g, b, Start(g, b) + i) == Some(FillByte(v, i)) {
    }
    if ZeroPadded(g, b) {
      forall i | b.len <= i < end ensures FillByte(v, i) == 0 {
        assert PaddedOf(g, b, Start(g, b) + i) == Some(0);
      }
    }
    if forall i :: b.len <= i < end ==> FillByte(v, i) == 0 {
      forall o | End(g, b) <= o < Start(g, b) + end ensures PaddedOf(g, b, o) == Some(0) {
        assert FillByte(v, o - Start(g, b)) == 0;
      }
    }
  }

  /** The bytes of a repeated word from `from` to the end of a word. */
  lemma FillTail(v: u32, from: nat, end: nat)
    requires from <= end && end % 4 == 0
    ensures (forall i :: from <= i < end ==> FillByte(v, i) == 0) <==>
              end == from || v == 0 || (end - from < 4 && v < BytesValue(from % 4))
  {
    hide FillByte;
    WordOfBytes(v);
    if from < end {
      LastWord(v, end);
      var n := from % 4;
      if forall i :: from <= i < end ==> FillByte(v, i) == 0 {
        assert FillByte(v, end - 1) == 0;
        assert end - from >= 2 ==> FillByte(v, end - 2) == 0;
        assert end - from >= 3 ==> FillByte(v, end - 3) == 0;
        assert end - from >= 4 ==> FillByte(v, end - 4) == 0;
      } else {
        var i :| from <= i < end && FillByte(v, i) != 0;
        assert v != 0 by {
          ZeroWord(i);
        }
      }
    }
  }

  /** The last four bytes of a repetition that ends with a word. */
  lemma LastWord(v: u32, end: nat)
    requires end >= 4 && end % 4 == 0
    ensures forall k :: 0 <= k < 4 ==> FillByte(v, end - 4 + k) == FillByte(v, k)
  {
  }

  lemma ZeroWord(i: nat)
    ensures FillByte(0, i) == 0
  {
  }

  /** A word and its bytes. */
  lemma WordOfBytes(v: u32)
    ensures v == FillByte(v, 0) + 0x100 * FillByte(v, 1) + 0x1_0000 * FillByte(v, 2) + 0x100_0000 * FillByte(v, 3)
    ensures v < 0x100_0000 <==> FillByte(v, 3) == 0
    ensures v < 0x1_0000 <==> FillByte(v, 3) == 0 && FillByte(v, 2) == 0
    ensures v < 0x100 <==> FillByte(v, 3) == 0 && FillByte(v, 2) == 0 && FillByte(v, 1) == 0
  {
    assert v / 0x1_0000 == v / 0x100 / 0x100 && v / 0x100_0000 == v / 0x1_0000 / 0x100;
  }

  /** One byte of ones, in blocks of four: the three bytes behind it are not zero. */
  lemma FillIsNotZeroPadded(st: Storage)
    ensures var g, b := Geometry(4, st), Block(0, 1, Fill(0x0101_0101));
            PaddedOf(g, b, 1) == Some(1) && !ZeroPadded(g, b)
  {
    var g, b := Geometry(4, st), Block(0, 1, Fill(0x0101_0101));
    assert DivRoundUp(1, 4) == 1;
    assert PaddedOf(g, b, 1) == Some(1);
  }

  ghost function PaddedAt(g: Geometry, s: seq<Block>, o: int): Option<byte>
    requires g.bs > 0
  {
    if s == [] then None else Or(PaddedOf(g, s[0], o), PaddedAt(g, s[1..], o))
  }

  /** The storage seen by a reader of `buf` through descriptor fd. */
  ghost function Through(g: Geometry, buf: seq<byte>, fd: int): Geometry
  {
    Geometry(g.bs, Storage(g.st.mem, g.st.file, (f, i) => if f == fd && 0 <= i < |buf| then buf[i] else 0))
  }

  /** An added block holds what the original block padded to whole blocks held. */
  ghost predicate Mirrors(g: Geometry, buf: seq<byte>, fd: int, b: Block, add: Block)
    requires g.bs > 0
  {
    && add.block == b.block
    && add.len == AlignUp(b.len, g.bs)
    && (b.backing.Fill? ==> add.backing == b.backing)
    && (!b.backing.Fill? ==>
          && add.backing.Fd? && add.backing.fd == fd
          && 0 <= add.backing.offset && add.backing.offset + add.len <= |buf|
          && buf[add.backing.offset..add.backing.offset + add.len] == PaddedData(g, b))
  }

  lemma MirrorContent(g: Geometry, buf: seq<byte>, fd: int, b: Block, add: Block, o: int)
    requires g.Valid() && Mirrors(g, buf, fd, b, add)
    ensures ByteOf(Through(g, buf, fd), add, o) == PaddedOf(g, b, o)
  {
    if Covers(Through(g, buf, fd), add, o) && !b.backing.Fill? {
      var i := o - Start(g, b);
      assert PaddedData(g, b)[i] == buf[add.backing.offset..add.backing.offset + add.len][i] == buf[add.backing.offset + i];
    }
  }

  lemma {:induction false} MirroredContent(g: Geometry, buf: seq<byte>, fd: int, s: seq<Block>, adds: seq<Block>, o: int)
    requires g.Valid() && AllMirror(g, buf, fd, s, adds)
    ensures At(Through(g, buf, fd), adds, o) == PaddedAt(g, s, o)
  {
    if s != [] {
      MirrorContent(g, buf, fd, s[0], adds[0], o);
      MirroredContent(g, buf, fd, s[1..], adds[1..], o);
    }
  }

  // ------------------------------------------------- what the reader adds

  lemma {:induction false} AddsConcat(a: seq<Chunk>, b: seq<Chunk>, bs: nat, fd: int, off: nat, cur: nat)
    ensures AddsOf(a + b, bs, fd, off, cur)
         == AddsOf(a, bs, fd, off, cur) + AddsOf(b, bs, fd, off + |Encode(a)|, cur + SumBlocks(a))
  {
    hide AddOf, Chunk.Bytes;
    if a == [] {
      assert a + b == b;
    } else {
      assert (a + b)[1..] == a[1..] + b;
      AddsConcat(a[1..], b, bs, fd, off + |a[0].Bytes()|, cur + a[0].blocks);
    }
  }

  lemma AddsOfGap(from: nat, to: nat, bs: nat, fd: int, off: nat, cur: nat)
    ensures AddsOf(GapChunks(from, to), bs, fd, off, cur) == []
  {
  }

  lemma AddsOfChunk(c: Chunk, bs: nat, fd: int, off: nat, cur: nat)
    ensures AddsOf([c], bs, fd, off, cur) == AddOf(c, bs, fd, off, cur)
  {
    assert AddsOf([c], bs, fd, off, cur) == AddOf(c, bs, fd, off, cur) + AddsOf([], bs, fd, off + |c.Bytes()|, cur + c.blocks);
  }

  /** The chunk written for a block, found at `off`, is read back as its mirror. */
  lemma ChunkMirrors(g: Geometry, b: Block, buf: seq<byte>, fd: int, off: nat)
    requires g.Valid()
    requires var c := ChunkOf(g, b); off + |c.Bytes()| <= |buf| && buf[off..off + |c.Bytes()|] == c.Bytes()
    ensures var add := AddOf(ChunkOf(g, b), g.bs, fd, off, b.block); |add| == 1 && Mirrors(g, buf, fd, b, add[0])
  {
    hide PaddedData, Chunk.Bytes;
    ChunkInPlace(ChunkOf(g, b), buf, off);
  }

  /** The chunks in front of the last block's own chunk. */
  ghost function ChunksBefore(g: Geometry, s: seq<Block>): seq<Chunk>
    requires g.bs > 0 && s != []
  {
    var init := s[..|s| - 1];
    ListChunks(g, init) + GapChunks(LastBlock(g.bs, init), s[|s| - 1].block)
  }

  lemma LastChunk(g: Geometry, s: seq<Block>)
    requires g.bs > 0 && s != []
    ensures ListChunks(g, s) == ChunksBefore(g, s) + [ChunkOf(g, s[|s| - 1])]
  {
  }

  lemma AddsOfList(g: Geometry, s: seq<Block>, fd: int, off: nat)
    requires g.bs > 0 && s != [] && Stacked(g.bs, s)
    ensures var init, b := s[..|s| - 1], s[|s| - 1];
            AddsOf(ListChunks(g, s), g.bs, fd, off, 0) ==
            AddsOf(ListChunks(g, init), g.bs, fd, off, 0)
            + AddOf(ChunkOf(g, b), g.bs, fd, off + |Encode(ChunksBefore(g, s))|, b.block)
  {
    hide AddsOf, AddOf, Encode, ChunkOf, ListChunks;
    var init, b := s[..|s| - 1], s[|s| - 1];
    var gap := GapChunks(LastBlock(g.bs, init), b.block);
    LastChunk(g, s);
    BeforeSum(g, s);
    AddsConcat(ChunksBefore(g, s), [ChunkOf(g, b)], g.bs, fd, off, 0);
    AddsConcat(ListChunks(g, init), gap, g.bs, fd, off, 0);
    AddsOfGap(LastBlock(g.bs, init), b.block, g.bs, fd, off + |Encode(ListChunks(g, init))|, SumBlocks(ListChunks(g, init)));
    AddsOfChunk(ChunkOf(g, b), g.bs, fd, off + |Encode(ChunksBefore(g, s))|, b.block);
  }

  lemma ListInPlace(g: Geometry, s: seq<Block>, buf: seq<byte>, off: nat)
    requires g.bs > 0 && s != []
    requires var e := Encode(ListChunks(g, s)); off + |e| <= |buf| && buf[off..off + |e|] == e
    ensures var e := Encode(ListChunks(g, s[..|s| - 1])); off + |e| <= |buf| && buf[off..off + |e|] == e
    ensures var at := off + |Encode(ChunksBefore(g, s))|;
            var c := ChunkOf(g, s[|s| - 1]);
            at + |c.Bytes()| <= |buf| && buf[at..at + |c.Bytes()|] == c.Bytes()
  {
    hide Chunk.Bytes, ChunkOf, ListChunks, Encode;
    var init, b := s[..|s| - 1], s[|s| - 1];
    var gap := GapChunks(LastBlock(g.bs, init), b.block);
    LastChunk(g, s);
    EncodeConcat(ChunksBefore(g, s), [ChunkOf(g, b)]);
    EncodeOne(ChunkOf(g, b));
    SplitInPlace(buf, off, Encode(ChunksBefore(g, s)), ChunkOf(g, b).Bytes());
    EncodeConcat(ListChunks(g, init), gap);
    SplitInPlace(buf, off, Encode(ListChunks(g, init)), Encode(gap));
  }

  ghost predicate AllMirror(g: Geometry, buf: seq<byte>, fd: int, s: seq<Block>, adds: seq<Block>)
    requires g.bs > 0
  {
    |adds| == |s| && forall i :: 0 <= i < |s| ==> Mirrors(g, buf, fd, s[i], adds[i])
  }

  /** Raw data of different chunks lies apart in the file by at least a chunk header. */
  ghost predicate OffsetsApart(adds: seq<Block>)
  {
    forall i, j :: 0 <= i < j < |adds| && adds[i].backing.Fd? && adds[j].backing.Fd? ==>
      adds[i].backing.offset + adds[i].len + CHUNK_HEADER_LEN <= adds[j].backing.offset
  }

  ghost predicate OffsetsUpTo(adds: seq<Block>, end: nat)
  {
    forall i :: 0 <= i < |adds| && adds[i].backing.Fd? ==> adds[i].backing.offset + adds[i].len <= end
  }

  lemma {:induction false} ListMirrors(g: Geometry, s: seq<Block>, buf: seq<byte>, fd: int, off: nat)
    requires g.Valid() && Stacked(g.bs, s)
    requires var e := Encode(ListChunks(g, s)); off + |e| <= |buf| && buf[off..off + |e|] == e
    ensures var adds := AddsOf(ListChunks(g, s), g.bs, fd, off, 0);
            AllMirror(g, buf, fd, s, adds) && OffsetsApart(adds) && OffsetsUpTo(adds, off + |Encode(ListChunks(g, s))|)
  {
    hide Chunk.Bytes, ChunkOf, AddOf, AddsOf, Mirrors, Encode, ChunksBefore, Stacked, ListChunks, AllMirror, OffsetsApart, OffsetsUpTo;
    if s == [] {
      NoMirrors(g, buf, fd, off);
    } else {
      var init, b, at := s[..|s| - 1], s[|s| - 1], off + |Encode(ChunksBefore(g, s))|;
      ListInPlace(g, s, buf, off);
      StackedInit(g.bs, s);
      ListMirrors(g, init, buf, fd, off);
      AddsOfList(g, s, fd, off);
      ChunkMirrors(g, b, buf, fd, at);
      ChunkEnds(g, s, buf, fd, off);
      MirrorsNext(g, buf, fd, s, AddsOf(ListChunks(g, init), g.bs, fd, off, 0), AddOf(ChunkOf(g, b), g.bs, fd, at, b.block)[0],
                  off + |Encode(ListChunks(g, init))|, off + |Encode(ListChunks(g, s))|);
      assert AddOf(ChunkOf(g, b), g.bs, fd, at, b.block) == [AddOf(ChunkOf(g, b), g.bs, fd, at, b.block)[0]];
    }
  }

  lemma NoMirrors(g: Geometry, buf: seq<byte>, fd: int, off: nat)
    requires g.bs > 0
    ensures var adds := AddsOf(ListChunks(g, []), g.bs, fd, off, 0);
            AllMirror(g, buf, fd, [], adds) && OffsetsApart(adds) && OffsetsUpTo(adds, off + |Encode(ListChunks(g, []))|)
  {
  }

  /** One more block read behind the others. */
  lemma MirrorsNext(g: Geometry, buf: seq<byte>, fd: int, s: seq<Block>, adds: seq<Block>, add: Block, end: nat, end': nat)
    requires g.bs > 0 && s != [] && AllMirror(g, buf, fd, s[..|s| - 1], adds) && Mirrors(g, buf, fd, s[|s| - 1], add)
    requires OffsetsApart(adds) && OffsetsUpTo(adds, end) && end <= end'
    requires add.backing.Fd? ==> end + CHUNK_HEADER_LEN <= add.backing.offset && add.backing.offset + add.len <= end'
    ensures AllMirror(g, buf, fd, s, adds + [add]) && OffsetsApart(adds + [add]) && OffsetsUpTo(adds + [add], end')
  {
    hide Mirrors;
  }

  /** Where the data of the last chunk lies. */
  lemma ChunkEnds(g: Geometry, s: seq<Block>, buf: seq<byte>, fd: int, off: nat)
    requires g.bs > 0 && s != []
    ensures var init, b, at := s[..|s| - 1], s[|s| - 1], off + |Encode(ChunksBefore(g, s))|;
            var add := AddOf(ChunkOf(g, b), g.bs, fd, at, b.block);
            && |add| == 1 && off + |Encode(ListChunks(g, init))| <= at <= off + |Encode(ListChunks(g, s))|
            && (add[0].backing.Fd? ==>
                  && off + |Encode(ListChunks(g, init))| + CHUNK_HEADER_LEN <= add[0].backing.offset
                  && add[0].backing.offset + add[0].len <= off + |Encode(ListChunks(g, s))|)
  {
    hide ListChunks, Encode;
    var init, b := s[..|s| - 1], s[|s| - 1];
    LastChunk(g, s);
    EncodeConcat(ChunksBefore(g, s), [ChunkOf(g, b)]);
    EncodeOne(ChunkOf(g, b));
    EncodeConcat(ListChunks(g, init), GapChunks(LastBlock(g.bs, init), b.block));
  }

  lemma StackedInit(bs: nat, s: seq<Block>)
    requires bs > 0 && s != [] && Stacked(bs, s)
    ensures Stacked(bs, s[..|s| - 1])
  {
    var init := s[..|s| - 1];
    forall i | 0 <= i < |init| ensures LastBlock(bs, init[..i]) <= init[i].block {
      assert init[..i] == s[..i];
    }
  }

  /** The chunks in front of the last block stand for exactly the blocks before it. */
  lemma BeforeSum(g: Geometry, s: seq<Block>)
    requires g.bs > 0 && s != [] && Stacked(g.bs, s)
    ensures SumBlocks(ChunksBefore(g, s)) == s[|s| - 1].block
  {
    var init := s[..|s| - 1];
    StackedInit(g.bs, s);
    ListChunksSum(g, init);
    SumBlocksConcat(ListChunks(g, init), GapChunks(LastBlock(g.bs, init), s[|s| - 1].block));
  }

  // ------------------------------------------------------------ round trip

  /** Blocks of an image of whole blocks end, rounded up, inside it. */
  lemma RoundedInside(g: Geometry, b: Block, len: nat)
    requires g.Valid() && len % g.bs == 0 && End(g, b) <= len
    ensures EndBlock(g.bs, b) <= len / g.bs && Start(g, b) + AlignUp(b.len, g.bs) <= len
  {
    RoundInside(b.block, DivRoundUp(b.len, g.bs), b.len, g.bs, len / g.bs);
  }

  lemma RoundInside(block: nat, d: nat, len: nat, bs: nat, q: nat)
    requires bs > 0 && d * bs < len + bs && block * bs + len <= q * bs
    ensures block + d <= q && block * bs + d * bs <= q * bs
  {
    assert (block + d) * bs == block * bs + d * bs && (q + 1) * bs == q * bs + bs;
    if block + d > q {
      MulMonotone(q + 1, block + d, bs);
    } else {
      MulMonotone(block + d, q, bs);
    }
  }

  lemma {:induction false} BlocksBounded(cs: seq<Chunk>, i: nat)
    requires i < |cs|
    ensures cs[i].blocks <= SumBlocks(cs)
  {
    if i > 0 {
      BlocksBounded(cs[1..], i - 1);
    }
  }

  /** What the format demands of a block: a raw chunk with its header, and the length of a fill,
      fit 32 bits. */
  ghost predicate ChunkFits(bs: nat, b: Block)
    requires bs > 0
  {
    AlignUp(b.len, bs) + (if b.backing.Fill? then 0 else CHUNK_HEADER_LEN) < B32
  }

  ghost predicate ChunksFit(bs: nat, s: seq<Block>)
    requires bs > 0
  {
    forall i :: 0 <= i < |s| ==> ChunkFits(bs, s[i])
  }

  /** Every chunk of fewer than 2^31 blocks fits the format's fields. */
  ghost predicate FitIfShort(bs: nat, cs: seq<Chunk>)
  {
    forall i :: 0 <= i < |cs| && cs[i].blocks < 0x8000_0000 ==> cs[i].Fits(bs)
  }

  lemma FitConcat(bs: nat, a: seq<Chunk>, b: seq<Chunk>)
    requires FitIfShort(bs, a) && FitIfShort(bs, b)
    ensures FitIfShort(bs, a + b)
  {
    hide Chunk.Fits;
  }

  lemma {:induction false} ListFits(g: Geometry, s: seq<Block>)
    requires g.bs > 0 && ChunksFit(g.bs, s)
    ensures FitIfShort(g.bs, ListChunks(g, s))
  {
    hide DivRoundUp, ChunkOf, ChunkFits, FitIfShort;
    if s != [] {
      var init, b := s[..|s| - 1], s[|s| - 1];
      ListFits(g, init);
      LastChunk(g, s);
      BlockFits(g, b);
      GapFits(g.bs, LastBlock(g.bs, init), b.block);
      FitConcat(g.bs, ListChunks(g, init), GapChunks(LastBlock(g.bs, init), b.block));
      FitConcat(g.bs, ChunksBefore(g, s), [ChunkOf(g, b)]);
    } else {
      GapFits(g.bs, 0, 0);
    }
  }

  lemma BlockFits(g: Geometry, b: Block)
    requires g.bs > 0 && ChunkFits(g.bs, b)
    ensures FitIfShort(g.bs, [ChunkOf(g, b)])
  {
  }

  lemma GapFits(bs: nat, from: nat, to: nat)
    ensures FitIfShort(bs, GapChunks(from, to))
  {
  }

  /** All chunks of an image of fewer than 2^31 blocks fit the format's fields. */
  lemma AllFit(g: Geometry, total: nat, s: seq<Block>)
    requires g.bs > 0 && Stacked(g.bs, s) && LastBlock(g.bs, s) <= total < 0x8000_0000 && ChunksFit(g.bs, s)
    ensures forall i :: 0 <= i < |AllChunks(g, total, s)| ==> AllChunks(g, total, s)[i].Fits(g.bs)
  {
    hide ListChunks, Chunk.Fits;
    ListFits(g, s);
    AllChunksSum(g, total, s);
    GapFits(g.bs, LastBlock(g.bs, s), total);
    FitConcat(g.bs, ListChunks(g, s), GapChunks(LastBlock(g.bs, s), total));
    var cs := AllChunks(g, total, s);
    forall i | 0 <= i < |cs| ensures cs[i].Fits(g.bs) {
      BlocksBounded(cs, i);
    }
  }

  /** The added blocks are sorted; those of non-empty blocks are disjoint and inside the image. */
  lemma MirrorsSorted(g: Geometry, s: seq<Block>, buf: seq<byte>, fd: int, adds: seq<Block>, i: nat, j: nat)
    requires g.Valid() && StrictlyOrdered(g, s) && AllMirror(g, buf, fd, s, adds) && i < j < |s|
    ensures Before(Through(g, buf, fd), adds[i], adds[j]) && adds[i].block < adds[j].block
  {
    assert Mirrors(g, buf, fd, s[i], adds[i]) && Mirrors(g, buf, fd, s[j], adds[j]);
    assert Before(g, s[i], s[j]);
    var d := DivRoundUp(s[i].len, g.bs);
    assert (s[i].block + d) * g.bs == s[i].block * g.bs + d * g.bs;
    BlockOrder(s[j].block, s[i].block + d, g.bs);
    BlockOrder(s[i].block + d, s[j].block, g.bs);
  }

  lemma MirrorsDisjoint(g: Geometry, s: seq<Block>, buf: seq<byte>, fd: int, adds: seq<Block>, len: nat)
    requires g.Valid() && StrictlyOrdered(g, s) && Inside(g, s, len) && len % g.bs == 0
    requires AllMirror(g, buf, fd, s, adds)
    ensures PairwiseDisjoint(Through(g, buf, fd), adds) && Inside(Through(g, buf, fd), adds, len)
  {
    var h := Through(g, buf, fd);
    forall i | 0 <= i < |s| ensures adds[i].len > 0 && End(h, adds[i]) <= len {
      assert Mirrors(g, buf, fd, s[i], adds[i]);
      RoundedInside(g, s[i], len);
    }
    forall i, j | 0 <= i < j < |s| ensures Before(h, adds[i], adds[j]) {
      MirrorsSorted(g, s, buf, fd, adds, i, j);
    }
  }

  // -------------------------------------------- what merging can reach again

  /** The fills as they are written, in whole blocks; data is never merged when it is read back,
      because a chunk header separates it in the file. */
  ghost function PaddedFills(g: Geometry, s: seq<Block>): (t: seq<Block>)
    requires g.bs > 0
    ensures |t| == |s|
    ensures forall i :: 0 <= i < |s| ==> t[i] == Block(s[i].block, AlignUp(s[i].len, g.bs), if s[i].backing.Fill? then s[i].backing else Data(0))
  {
    seq(|s|, i requires 0 <= i < |s| => Block(s[i].block, AlignUp(s[i].len, g.bs), if s[i].backing.Fill? then s[i].backing else Data(0)))
  }

  /** A run from the file does not go from one chunk into the next. */
  lemma FdRunShort(g: Geometry, s: seq<Block>, buf: seq<byte>, fd: int, adds: seq<Block>, src: Source, lo: int, hi: int)
    requires g.Valid() && StrictlyOrdered(g, s) && AllMirror(g, buf, fd, s, adds) && OffsetsApart(adds)
    requires src.FdSource? && RunOf(Through(g, buf, fd), adds, src, lo, hi)
    requires forall i :: 0 <= i < |adds| ==> adds[i].len < B32
    ensures hi - lo < B32
  {
    hide Mirrors, StrictlyOrdered;
    var h := Through(g, buf, fd);
    assert Supplies(h, adds, src, lo);
    var i :| 0 <= i < |adds| && SourceOf(h, adds[i]) == Some(src) && Covers(h, adds[i], lo);
    var o := End(h, adds[i]);
    forall j | 0 <= j < |adds| && SourceOf(h, adds[j]) == Some(src) ensures !Covers(h, adds[j], o) {
      if j < i {
        MirrorsSorted(g, s, buf, fd, adds, j, i);
      } else if i < j {
        MirrorsSorted(g, s, buf, fd, adds, i, j);
      }
    }
    assert !Supplies(h, adds, src, o);
    assert hi <= o;
  }

  lemma MirrorRuns(g: Geometry, s: seq<Block>, buf: seq<byte>, fd: int, adds: seq<Block>)
    requires g.Valid() && StrictlyOrdered(g, s) && AllMirror(g, buf, fd, s, adds) && OffsetsApart(adds)
    requires ChunksFit(g.bs, s) && RunsBelow(g, PaddedFills(g, s), B32)
    ensures RunsBelow(Through(g, buf, fd), adds, B32)
  {
    hide StrictlyOrdered, OffsetsApart;
    var h, fills := Through(g, buf, fd), PaddedFills(g, s);
    forall i | 0 <= i < |adds| ensures adds[i].len < B32 && (adds[i].backing.Fill? <==> s[i].backing.Fill?) && !adds[i].backing.File? {
      assert Mirrors(g, buf, fd, s[i], adds[i]) && ChunkFits(g.bs, s[i]);
    }
    forall src, lo, hi | RunOf(h, adds, src, lo, hi) ensures hi - lo < B32 {
      match src
      case FdSource(_, _) =>
        FdRunShort(g, s, buf, fd, adds, src, lo, hi);
      case FileSource(_, _) =>
        NoFileRun(h, adds, src, lo, hi);
      case FillSource(v) =>
        forall o | lo <= o < hi ensures Supplies(g, fills, src, o) {
          FillSupply(g, s, buf, fd, adds, src, o);
        }
        assert RunOf(g, fills, src, lo, hi);
    }
  }

  lemma NoFileRun(g: Geometry, s: seq<Block>, src: Source, lo: int, hi: int)
    requires src.FileSource? && forall i :: 0 <= i < |s| ==> !s[i].backing.File?
    ensures !RunOf(g, s, src, lo, hi)
  {
    assert !Supplies(g, s, src, lo);
  }

  lemma FillSupply(g: Geometry, s: seq<Block>, buf: seq<byte>, fd: int, adds: seq<Block>, src: Source, o: int)
    requires g.Valid() && AllMirror(g, buf, fd, s, adds) && src.FillSource? && Supplies(Through(g, buf, fd), adds, src, o)
    ensures Supplies(g, PaddedFills(g, s), src, o)
  {
    var h := Through(g, buf, fd);
    var i :| 0 <= i < |adds| && SourceOf(h, adds[i]) == Some(src) && Covers(h, adds[i], o);
    assert Mirrors(g, buf, fd, s[i], adds[i]);
    assert SourceOf(g, PaddedFills(g, s)[i]) == Some(src) && Covers(g, PaddedFills(g, s)[i], o);
  }

  // -------------------------------------------------- an empty last block

  /** Queueing an empty block behind everything changes no byte. */
  lemma EnqueueEmpty(g: Geometry, t: seq<Block>, e: Block, o: int)
    requires g.Valid() && StrictlyOrdered(g, t) && e.len == 0
    requires forall i :: 0 <= i < |t| ==> t[i].block < e.block && Before(g, t[i], e) && (t[i].len < B32 || t[i].backing.Data?)
    ensures StrictlyOrdered(g, Enqueue(g.bs, t, e)) && At(g, Enqueue(g.bs, t, e), o) == At(g, t, o)
  {
    hide Enqueue, At;
    EmptyChoices(g.bs, t, e);
    AtOne(g, e, o);
    AtConcat(g, t, [e], o);
  }

  /** An empty block behind everything is either dropped or becomes the last one. */
  lemma EmptyChoices(bs: nat, t: seq<Block>, e: Block)
    requires bs > 0 && e.len == 0
    requires forall i :: 0 <= i < |t| ==> t[i].block < e.block && (t[i].len < B32 || t[i].backing.Data?)
    ensures Enqueue(bs, t, e) == t || Enqueue(bs, t, e) == t + [e]
  {
    hide Merge;
    if t != [] {
      LastPosition(t, e.block, 1);
      var n, u := |t|, t + [e];
      assert InsertAt(t, e, n) == u && Coalesce(bs, u, n) == u;
      if Merge(bs, t[n - 1], e).Some? {
        MergeEmpty(bs, t[n - 1], e);
        assert Coalesce(bs, u, n - 1) == t;
      }
    }
  }

  lemma MergeEmpty(bs: nat, a: Block, e: Block)
    requires bs > 0 && e.len == 0 && (a.len < B32 || a.backing.Data?) && Merge(bs, a, e).Some?
    ensures Merge(bs, a, e).value == a
  {
  }

  lemma {:induction false} LastPosition(t: seq<Block>, block: nat, from: nat)
    requires from <= |t| && forall i :: from <= i < |t| ==> t[i].block < block
    ensures Position(t, block, from) == |t|
    decreases |t| - from
  {
    if from < |t| {
      LastPosition(t, block, from + 1);
    }
  }

  /** Every block of a list lies before e when everything it covers does. */
  lemma AllBeforeEmpty(g: Geometry, t: seq<Block>, adds: seq<Block>, e: Block, size: nat)
    requires g.Valid() && StrictlyOrdered(g, t) && Inside(g, t, size)
    requires forall o :: At(g, t, o) == At(g, adds, o)
    requires forall i :: 0 <= i < |adds| ==> Before(g, adds[i], e)
    ensures forall i :: 0 <= i < |t| ==> t[i].block < e.block && Before(g, t[i], e)
  {
    OrderedWhenStrict(g, t);
    forall i | 0 <= i < |t| ensures t[i].block < e.block && Before(g, t[i], e) {
      var o := End(g, t[i]) - 1;
      AtWitness(g, t, o, i);
      if !Before(g, t[i], e) {
        AtNone(g, adds, o);
        assert false;
      }
      BlockOrder(e.block, t[i].block, g.bs);
    }
  }

  /** The blocks of a merged list are runs. */
  lemma BlockIsRun(g: Geometry, t: seq<Block>, adds: seq<Block>, limit: nat, i: nat)
    requires Within(g, t, adds) && RunsBelow(g, adds, limit) && i < |t| && limit > 0
    ensures t[i].len < limit || t[i].backing.Data?
  {
    if !t[i].backing.Data? && t[i].len > 0 {
      var src := SourceOf(g, t[i]).value;
      forall o | Start(g, t[i]) <= o < End(g, t[i]) ensures Supplies(g, adds, src, o) {
        assert Supplies(g, t, src, o);
      }
      assert RunOf(g, adds, src, Start(g, t[i]), End(g, t[i]));
    }
  }

  // ------------------------------------------------------------ round trip

  /** What the reader makes of blocks that mirror a list. */
  ghost predicate ReadsBack(g: Geometry, s: seq<Block>, buf: seq<byte>, fd: int, adds: seq<Block>)
    requires g.bs > 0
  {
    && AllMirror(g, buf, fd, s, adds)
    && StrictlyOrdered(Through(g, buf, fd), EnqueueAll(g.bs, adds))
    && forall o :: At(Through(g, buf, fd), EnqueueAll(g.bs, adds), o) == PaddedAt(g, s, o)
  }

  lemma MirrorsReadBack(g: Geometry, s: seq<Block>, buf: seq<byte>, fd: int, adds: seq<Block>, len: nat)
    requires g.Valid() && StrictlyOrdered(g, s) && Inside(g, s, len) && len % g.bs == 0
    requires AllMirror(g, buf, fd, s, adds) && RunsBelow(Through(g, buf, fd), adds, B32)
    ensures ReadsBack(g, s, buf, fd, adds)
    ensures Inside(Through(g, buf, fd), EnqueueAll(g.bs, adds), len) && Within(Through(g, buf, fd), EnqueueAll(g.bs, adds), adds)
  {
    hide AllMirror, RunsBelow, Inside, StrictlyOrdered, PairwiseDisjoint, At, PaddedAt, EnqueueAll, Within;
    MirrorsDisjoint(g, s, buf, fd, adds, len);
    RunOfAdds(Through(g, buf, fd), adds, len);
    forall o ensures At(Through(g, buf, fd), EnqueueAll(g.bs, adds), o) == PaddedAt(g, s, o) {
      MirroredContent(g, buf, fd, s, adds, o);
    }
  }

  /** ... also when the last block is empty, as the last piece of a resparsed file may be. */
  lemma EmptyLastReadsBack(g: Geometry, s: seq<Block>, buf: seq<byte>, fd: int, adds: seq<Block>, len: nat)
    requires g.Valid() && StrictlyOrdered(g, s) && InsideButLast(g, s, len) && len % g.bs == 0
    requires s != [] && s[|s| - 1].len == 0
    requires AllMirror(g, buf, fd, s, adds) && RunsBelow(Through(g, buf, fd), adds, B32)
    ensures ReadsBack(g, s, buf, fd, adds)
  {
    hide RunsBelow, PaddedAt, Within, Mirrors, Inside;
    var h, n := Through(g, buf, fd), |s| - 1;
    var init, e := adds[..n], adds[n];
    assert adds == init + [e] && AllMirror(g, buf, fd, s[..n], init);
    ButLast(g, s, len);
    EmptyMirror(g, buf, fd, s[n], e);
    WithinMembers(h, init, adds);
    RunsBelowWithin(h, init, adds, B32);
    MirrorsReadBack(g, s[..n], buf, fd, init, len);
    var t := EnqueueAll(g.bs, init);
    forall i | 0 <= i < n ensures Before(h, init[i], e) {
      MirrorsSorted(g, s, buf, fd, adds, i, n);
    }
    forall o ensures At(h, t, o) == At(h, init, o) {
      MirroredContent(g, buf, fd, s[..n], init, o);
    }
    AllBeforeEmpty(h, t, init, e, len);
    forall i | 0 <= i < |t| ensures t[i].len < B32 || t[i].backing.Data? {
      BlockIsRun(h, t, init, B32, i);
    }
    forall o ensures At(h, EnqueueAll(g.bs, adds), o) == PaddedAt(g, s, o) && StrictlyOrdered(h, EnqueueAll(g.bs, adds)) {
      EnqueueEmpty(h, t, e, o);
      PaddedWithoutLast(g, s, o);
    }
    assert StrictlyOrdered(h, EnqueueAll(g.bs, adds)) by {
      EnqueueEmpty(h, t, e, 0);
    }
  }

  lemma ButLast(g: Geometry, s: seq<Block>, len: nat)
    requires s != [] && StrictlyOrdered(g, s) && InsideButLast(g, s, len)
    ensures StrictlyOrdered(g, s[..|s| - 1]) && Inside(g, s[..|s| - 1], len)
  {
  }

  lemma EmptyMirror(g: Geometry, buf: seq<byte>, fd: int, b: Block, add: Block)
    requires g.bs > 0 && b.len == 0 && Mirrors(g, buf, fd, b, add)
    ensures add.len == 0
  {
    NothingToRound(g.bs);
  }

  lemma NothingToRound(bs: nat)
    requires bs > 0
    ensures AlignUp(0, bs) == 0
  {
    WholeBlocks(bs, 0);
  }

  lemma {:induction false} PaddedWithoutLast(g: Geometry, s: seq<Block>, o: int)
    requires g.Valid() && s != [] && s[|s| - 1].len == 0
    ensures PaddedAt(g, s[..|s| - 1], o) == PaddedAt(g, s, o)
  {
    NothingToRound(g.bs);
    if |s| > 1 {
      assert s[1..][..|s| - 2] == s[..|s| - 1][1..];
      PaddedWithoutLast(g, s[1..], o);
    } else {
      assert s[..0] == [];
    }
  }

  /** Importing what the writer emitted succeeds, with its block size and length, yields one block
      per block written, and the resulting list has the same bytes, padded to whole blocks. The image may be of any size
      below 2^31 blocks; each raw chunk and each run of one fill value must fit 32 bits. */
  lemma SparseRoundTrip(g: Geometry, s: seq<Block>, len: nat, fd: int)
    requires g.Valid() && StrictlyOrdered(g, s) && InsideButLast(g, s, len)
    requires len % g.bs == 0 && len / g.bs < 0x8000_0000
    requires ChunksFit(g.bs, s) && RunsBelow(g, PaddedFills(g, s), B32)
    ensures var buf := SparseBytes(g, len, s);
            var r := ImportOf(buf, fd);
            && r.NewFile? && r.bs == g.bs && r.len == len && ReadsBack(g, s, buf, fd, r.adds)
            && RunsBelow(Through(g, buf, fd), r.adds, B32)
  {
    hide ListChunks, AllMirror, OffsetsApart, OffsetsUpTo, StrictlyOrdered, AddsOf, Encode, ReadChunks, Stacked, ReadsBack,
         RunsBelow, ChunksFit, InsideButLast, SparseBytes, ReadSparse, ImportOf;
    var buf, adds := SparseBytes(g, len, s), AddsOf(ListChunks(g, s), g.bs, fd, SPARSE_HEADER_LEN, 0);
    StackedInside(g, s, len);
    AddsRead(g, s, len, fd);
    LengthFits(len, g.bs);
    ImportReads(g, s, len, fd);
    BytesInPlace(g, s, len);
    ListMirrors(g, s, buf, fd, SPARSE_HEADER_LEN);
    MirrorRuns(g, s, buf, fd, adds);
    if s != [] && s[|s| - 1].len == 0 {
      EmptyLastReadsBack(g, s, buf, fd, adds, len);
    } else {
      NoneEmpty(g, s, len);
      MirrorsReadBack(g, s, buf, fd, adds, len);
    }
  }

  /** The import finds the writer's block size and length in the header. */
  lemma ImportReads(g: Geometry, s: seq<Block>, len: nat, fd: int)
    requires g.Valid() && len % g.bs == 0 && len / g.bs < 0x8000_0000
    requires len < 0x8000_0000_0000_0000 && ReadSparse(SparseBytes(g, len, s), fd, g.bs).Done?
    ensures ImportOf(SparseBytes(g, len, s), fd) == NewFile(g.bs, len, ReadSparse(SparseBytes(g, len, s), fd, g.bs).adds)
  {
    hide ReadSparse, ImportOf, AllChunks, Encode, SparseHeader.Bytes, DivRoundUp;
    var cs := AllChunks(g, len / g.bs, s);
    WholeBlocks(g.bs, len);
    SmallMod(g.bs);
    SmallMod(len / g.bs);
    LengthFits(len, g.bs);
    ImportBehindHeader(HeaderFor(g.bs, len, |cs|), Encode(cs), fd);
  }

  lemma ImportBehindHeader(h: SparseHeader, rest: seq<byte>, fd: int)
    requires KnownHeader(h) && h.blkSz > 0 && ReadSparse(h.Bytes() + rest, fd, h.blkSz).Done?
    ensures ImportOf(h.Bytes() + rest, fd)
         == NewFile(h.blkSz, ToI64(h.totalBlks * h.blkSz), ReadSparse(h.Bytes() + rest, fd, h.blkSz).adds)
  {
    hide ReadSparse, SparseHeader.Bytes, SparseHeader.Read;
    SparseHeaderRoundTrip(h, rest);
  }

  lemma LengthFits(len: nat, bs: nat)
    requires 0 < bs < B32 && len % bs == 0 && len / bs < 0x8000_0000
    ensures len / bs * bs == len < 0x8000_0000_0000_0000
  {
    MulMonotone(len / bs, 0x8000_0000, bs);
  }

  lemma NoneEmpty(g: Geometry, s: seq<Block>, len: nat)
    requires InsideButLast(g, s, len) && (s == [] || s[|s| - 1].len > 0)
    ensures Inside(g, s, len)
  {
  }

  /** The closing skip adds no block. */
  lemma AddsRead(g: Geometry, s: seq<Block>, len: nat, fd: int)
    requires g.Valid() && len % g.bs == 0 && len / g.bs < 0x8000_0000 && ChunksFit(g.bs, s)
    requires Stacked(g.bs, s) && LastBlock(g.bs, s) <= len / g.bs && NonEmptyButLast(s)
    ensures ReadSparse(SparseBytes(g, len, s), fd, g.bs) == Done(AddsOf(ListChunks(g, s), g.bs, fd, SPARSE_HEADER_LEN, 0), len / g.bs)
  {
    hide ListChunks, AddsOf, Encode, Stacked, ChunksFit, ReadSparse, SparseBytes;
    var total := len / g.bs;
    AllFit(g, total, s);
    ReadsHeader(g, s, len, fd);
    AddsConcat(ListChunks(g, s), GapChunks(LastBlock(g.bs, s), total), g.bs, fd, SPARSE_HEADER_LEN, 0);
    AddsOfGap(LastBlock(g.bs, s), total, g.bs, fd, SPARSE_HEADER_LEN + |Encode(ListChunks(g, s))|, SumBlocks(ListChunks(g, s)));
    var adds := AddsOf(ListChunks(g, s), g.bs, fd, SPARSE_HEADER_LEN, 0);
    assert adds + [] == adds;
  }

  lemma StackedInside(g: Geometry, s: seq<Block>, len: nat)
    requires g.Valid() && StrictlyOrdered(g, s) && InsideButLast(g, s, len) && len % g.bs == 0
    ensures Stacked(g.bs, s) && LastBlock(g.bs, s) <= len / g.bs && len == (len / g.bs) * g.bs
    ensures NonEmptyButLast(s)
  {
    hide StrictlyOrdered, Stacked, DivRoundUp, Ordered;
    OrderedWhenStrict(g, s);
    OrderedIsStacked(g, s);
    LastInside(g, s, len);
  }

  lemma LastInside(g: Geometry, s: seq<Block>, len: nat)
    requires g.Valid() && InsideButLast(g, s, len) && len % g.bs == 0
    ensures LastBlock(g.bs, s) <= len / g.bs
  {
    if s != [] {
      RoundedInside(g, s[|s| - 1], len);
    }
  }

  lemma BytesInPlace(g: Geometry, s: seq<Block>, len: nat)
    requires g.bs > 0
    ensures var buf := SparseBytes(g, len, s);
            var e := Encode(ListChunks(g, s));
            SPARSE_HEADER_LEN + |e| <= |buf| && buf[SPARSE_HEADER_LEN..SPARSE_HEADER_LEN + |e|] == e
  {
    hide ListChunks, Encode, HeaderFor;
    var cs := AllChunks(g, len / g.bs, s);
    EncodeConcat(ListChunks(g, s), GapChunks(LastBlock(g.bs, s), len / g.bs));
    var head := HeaderFor(g.bs, len, |cs|).Bytes();
    assert (head + Encode(cs))[SPARSE_HEADER_LEN..] == Encode(cs);
  }

  lemma {:induction false} CountBounded(cs: seq<Chunk>)
    requires forall i :: 0 <= i < |cs| - 1 ==> cs[i].blocks > 0
    ensures |cs| <= SumBlocks(cs) + 1
  {
    if cs != [] {
      CountBounded(cs[1..]);
    }
  }

  ghost predicate NonEmptyButLast(s: seq<Block>)
  {
    forall i :: 0 <= i < |s| - 1 ==> s[i].len > 0
  }

  lemma {:induction false} ListPositive(g: Geometry, s: seq<Block>)
    requires g.bs > 0 && forall i :: 0 <= i < |s| ==> s[i].len > 0
    ensures forall i :: 0 <= i < |ListChunks(g, s)| ==> ListChunks(g, s)[i].blocks > 0
  {
    if s != [] {
      ListPositive(g, s[..|s| - 1]);
      LastChunk(g, s);
      assert DivRoundUp(s[|s| - 1].len, g.bs) > 0;
    }
  }

  /** At most one chunk more than blocks of the image, for an empty last block. */
  lemma ChunkCountFits(g: Geometry, total: nat, s: seq<Block>)
    requires g.bs > 0 && NonEmptyButLast(s) && Stacked(g.bs, s) && LastBlock(g.bs, s) <= total
    ensures |AllChunks(g, total, s)| <= total + 3
  {
    hide ListChunks;
    AllChunksSum(g, total, s);
    if s != [] {
      var init := s[..|s| - 1];
      ListPositive(g, init);
      LastChunk(g, s);
      StackedInit(g.bs, s);
      CountBounded(ListChunks(g, init));
      SumBlocksConcat(ListChunks(g, init), GapChunks(LastBlock(g.bs, init), s[|s| - 1].block) + [ChunkOf(g, s[|s| - 1])]);
      ListChunksSum(g, s);
      assert ListChunks(g, s) == ListChunks(g, init) + (GapChunks(LastBlock(g.bs, init), s[|s| - 1].block) + [ChunkOf(g, s[|s| - 1])]);
    } else {
      NoChunks(g);
    }
  }

  /** The header passes its checks and the chunk loop reads all chunks emitted. */
  lemma ReadsHeader(g: Geometry, s: seq<Block>, len: nat, fd: int)
    requires g.Valid() && len % g.bs == 0 && len / g.bs < 0x8000_0000
    requires Stacked(g.bs, s) && LastBlock(g.bs, s) <= len / g.bs && NonEmptyButLast(s)
    requires forall i :: 0 <= i < |AllChunks(g, len / g.bs, s)| ==> AllChunks(g, len / g.bs, s)[i].Fits(g.bs)
    ensures var cs := AllChunks(g, len / g.bs, s);
            ReadSparse(SparseBytes(g, len, s), fd, g.bs) == Done(AddsOf(cs, g.bs, fd, SPARSE_HEADER_LEN, 0), len / g.bs)
  {
    hide ListChunks, AllChunks, Encode, AddsOf, Stacked, Chunk.Fits, ReadChunks, DivRoundUp;
    hide ReadSparse, SparseHeader.Bytes;
    var total := len / g.bs;
    var cs := AllChunks(g, total, s);
    AllChunksSum(g, total, s);
    ChunkCountFits(g, total, s);
    WholeBlocks(g.bs, len);
    SmallMod(|cs|);
    SmallMod(total);
    ReadBehindHeader(HeaderFor(g.bs, len, |cs|), cs, fd, g.bs);
  }

  lemma WholeBlocks(bs: nat, len: nat)
    requires bs > 0 && len % bs == 0
    ensures DivRoundUp(len, bs) == len / bs <= len
  {
    CountAgreesIffWholeBlocks(bs, len, 0);
    if len / bs > 0 {
      MulMonotone(1, bs, len / bs);
    }
  }

  /** A chunk stream behind a header of the writer's kind is read as the chunks say. */
  lemma ReadBehindHeader(h: SparseHeader, cs: seq<Chunk>, fd: int, bs: nat)
    requires bs > 0 && h.magic == SPARSE_HEADER_MAGIC && h.major == 1
    requires h.fileHdrSz == SPARSE_HEADER_LEN && h.chunkHdrSz == CHUNK_HEADER_LEN
    requires h.totalChunks == |cs| && h.totalBlks == SumBlocks(cs)
    requires forall i :: 0 <= i < |cs| ==> cs[i].Fits(bs)
    ensures ReadSparse(h.Bytes() + Encode(cs), fd, bs) == Done(AddsOf(cs, bs, fd, SPARSE_HEADER_LEN, 0), SumBlocks(cs))
  {
    hide Encode, AddsOf, Chunk.Fits, ReadChunks, SparseHeader.Bytes, SparseHeader.Read, SumBlocks;
    SparseHeaderRoundTrip(h, Encode(cs));
    var buf := h.Bytes() + Encode(cs);
    assert buf[SPARSE_HEADER_LEN..SPARSE_HEADER_LEN + |Encode(cs)|] == Encode(cs);
    ReadEncoded(cs, bs, fd, buf, SPARSE_HEADER_LEN, 0);
  }
}
