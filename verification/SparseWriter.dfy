/** Writing a sparse file in sparse form: counting the chunks, the chunk writers of
    output_file.cpp, and write_all_blocks over the linked list. */
module SparseWriter {
  import opened Words
  import opened Blocks
  import opened BlockList
  import opened Resparse
  import opened SparseFormat

  // ------------------------------------------------ the chunks of a list

  /** A block's bytes, padded with zeros to whole blocks. */
  function PaddedData(g: Geometry, b: Block): (d: seq<byte>)
    requires g.bs > 0
    ensures |d| == AlignUp(b.len, g.bs)
  {
    seq(AlignUp(b.len, g.bs), i requires 0 <= i => if i < b.len then ByteAt(g.st, b.backing, i) else 0)
  }

  function ChunkOf(g: Geometry, b: Block): Chunk
    requires g.bs > 0
  {
    if b.backing.Fill? then FillWith(DivRoundUp(b.len, g.bs), b.backing.val)
    else Raw(DivRoundUp(b.len, g.bs), PaddedData(g, b))
  }

  function GapChunks(from: nat, to: nat): seq<Chunk>
  {
    if from < to then [Skip(to - from)] else []
  }

  /** The chunks up to the last block of the list. */
  function ListChunks(g: Geometry, s: seq<Block>): seq<Chunk>
    requires g.bs > 0
  {
    if s == [] then []
    else
      var init, b := s[..|s| - 1], s[|s| - 1];
      ListChunks(g, init) + GapChunks(LastBlock(g.bs, init), b.block) + [ChunkOf(g, b)]
  }

  /** All chunks of an image of `total` blocks. */
  function AllChunks(g: Geometry, total: nat, s: seq<Block>): seq<Chunk>
    requires g.bs > 0
  {
    ListChunks(g, s) + GapChunks(LastBlock(g.bs, s), total)
  }

  lemma ListChunksStep(g: Geometry, s: seq<Block>, i: nat)
    requires g.bs > 0 && i < |s|
    ensures ListChunks(g, s[..i + 1])
         == ListChunks(g, s[..i]) + GapChunks(LastBlock(g.bs, s[..i]), s[i].block) + [ChunkOf(g, s[i])]
    ensures LastBlock(g.bs, s[..i + 1]) == EndBlock(g.bs, s[i])
  {
    assert s[..i + 1][..i] == s[..i];
  }

  lemma {:induction false} EncodeConcat(a: seq<Chunk>, b: seq<Chunk>)
    ensures Encode(a + b) == Encode(a) + Encode(b)
  {
    if a == [] {
      assert a + b == b;
    } else {
      assert (a + b)[1..] == a[1..] + b;
      EncodeConcat(a[1..], b);
    }
  }

  lemma EncodeOne(c: Chunk)
    ensures Encode([c]) == c.Bytes()
  {
  }

  lemma {:induction false} SumBlocksConcat(a: seq<Chunk>, b: seq<Chunk>)
    ensures SumBlocks(a + b) == SumBlocks(a) + SumBlocks(b)
  {
    if a == [] {
      assert a + b == b;
    } else {
      assert (a + b)[1..] == a[1..] + b;
      SumBlocksConcat(a[1..], b);
    }
  }

  /** The emitted bytes are as long as the resparse loop estimates them. */
  lemma {:induction false} BodyLengthIsEmitted(g: Geometry, s: seq<Block>)
    requires g.bs > 0
    ensures |Encode(ListChunks(g, s))| == BodyLength(g.bs, s)
  {
    if s != [] {
      var init, b := s[..|s| - 1], s[|s| - 1];
      BodyLengthIsEmitted(g, init);
      var gap := GapChunks(LastBlock(g.bs, init), b.block);
      EncodeConcat(ListChunks(g, init) + gap, [ChunkOf(g, b)]);
      EncodeConcat(ListChunks(g, init), gap);
      EncodeOne(ChunkOf(g, b));
    }
  }

  lemma FileLengthIsEmitted(g: Geometry, total: nat, s: seq<Block>)
    requires g.bs > 0
    ensures SPARSE_HEADER_LEN + |Encode(AllChunks(g, total, s))| == FileLength(g.bs, total, s)
  {
    BodyLengthIsEmitted(g, s);
    var gap := GapChunks(LastBlock(g.bs, s), total);
    EncodeConcat(ListChunks(g, s), gap);
    assert |Encode(gap)| == if LastBlock(g.bs, s) < total then CHUNK_HEADER_LEN else 0;
  }

  /** Blocks follow each other at block granularity. */
  ghost predicate Stacked(bs: nat, s: seq<Block>)
    requires bs > 0
  {
    forall i :: 0 <= i < |s| ==> LastBlock(bs, s[..i]) <= s[i].block
  }

  /** Byte-wise order is block-wise order. */
  lemma OrderedIsStacked(g: Geometry, s: seq<Block>)
    requires g.Valid() && Ordered(g, s)
    ensures Stacked(g.bs, s)
  {
    forall i | 0 <= i < |s| ensures LastBlock(g.bs, s[..i]) <= s[i].block {
      if i > 0 {
        var a, b := s[i - 1], s[i];
        assert s[..i][|s[..i]| - 1] == a;
        assert Before(g, a, b);
        var d := DivRoundUp(a.len, g.bs);
        assert (a.block + d) * g.bs == a.block * g.bs + d * g.bs;
        BlockOrder(b.block, a.block + d, g.bs);
      }
    }
  }

  /** The chunk_sz fields of a stacked list sum to the blocks they stand for. */
  lemma {:induction false} ListChunksSum(g: Geometry, s: seq<Block>)
    requires g.bs > 0 && Stacked(g.bs, s)
    ensures SumBlocks(ListChunks(g, s)) == LastBlock(g.bs, s)
  {
    if s != [] {
      var k := |s| - 1;
      var init, b := s[..k], s[k];
      forall i | 0 <= i < |init| ensures LastBlock(g.bs, init[..i]) <= init[i].block {
        assert init[..i] == s[..i];
      }
      ListChunksSum(g, init);
      var gap := GapChunks(LastBlock(g.bs, init), b.block);
      SumBlocksConcat(ListChunks(g, init) + gap, [ChunkOf(g, b)]);
      SumBlocksConcat(ListChunks(g, init), gap);
    }
  }

  lemma AllChunksSum(g: Geometry, total: nat, s: seq<Block>)
    requires g.bs > 0 && Stacked(g.bs, s) && LastBlock(g.bs, s) <= total
    ensures SumBlocks(AllChunks(g, total, s)) == total
  {
    ListChunksSum(g, s);
    SumBlocksConcat(ListChunks(g, s), GapChunks(LastBlock(g.bs, s), total));
  }

  // --------------------------------------------------------- output_file

  /** An output file in sparse mode without CRC: the bytes written so far and the counters. */
  class OutputFile {
    const g: Geometry
    var out: seq<byte>
    var curOutPtr: int
    var chunkCnt: nat

    /** output_file_init */
    constructor (g: Geometry, len: nat, chunks: nat)
      requires g.bs > 0
      ensures this.g == g && curOutPtr == 0 && chunkCnt == 0
      ensures out == HeaderFor(g.bs, len, chunks).Bytes()
    {
      this.g := g;
      curOutPtr, chunkCnt := 0, 0;
      out := HeaderFor(g.bs, len, chunks).Bytes();
    }

    /** write_sparse_skip_chunk: refuses lengths that are not whole blocks. */
    method WriteSkipChunk(skipLen: nat) returns (ok: bool)
      requires g.bs > 0
      modifies this
      ensures ok <==> skipLen % g.bs == 0
      ensures ok ==> out == old(out) + Skip(skipLen / g.bs).Bytes() && chunkCnt == old(chunkCnt) + 1
      ensures ok ==> curOutPtr == old(curOutPtr) + skipLen
      ensures !ok ==> unchanged(this)
    {
      if skipLen % g.bs != 0 {
        return false;
      }
      out := out + ChunkHeader(CHUNK_TYPE_DONT_CARE, 0, skipLen / g.bs % B32, CHUNK_HEADER_LEN).Bytes();
      curOutPtr := curOutPtr + skipLen;
      chunkCnt := chunkCnt + 1;
      return true;
    }

    /** write_sparse_fill_chunk. The rounded length is an int, so from 2^31 bytes on the position
        moves backwards; nothing that is written depends on it. */
    method WriteFillChunk(len: nat, val: u32)
      requires g.bs > 0
      modifies this
      ensures out == old(out) + FillWith(DivRoundUp(len, g.bs), val).Bytes() && chunkCnt == old(chunkCnt) + 1
      ensures curOutPtr == old(curOutPtr) + ToI32(AlignUp(len, g.bs) % B32)
    {
      var rndUpLen := AlignUp(len, g.bs);
      QuotientOfMultiple(DivRoundUp(len, g.bs), g.bs);
      out := out + ChunkHeader(CHUNK_TYPE_FILL, 0, rndUpLen / g.bs % B32, CHUNK_HEADER_LEN + 4).Bytes();
      out := out + Le32(val);
      curOutPtr := curOutPtr + ToI32(rndUpLen % B32);
      chunkCnt := chunkCnt + 1;
    }

    /** write_sparse_data_chunk */
    method WriteDataChunk(b: Block)
      requires g.bs > 0
      modifies this
      ensures out == old(out) + Raw(DivRoundUp(b.len, g.bs), PaddedData(g, b)).Bytes() && chunkCnt == old(chunkCnt) + 1
      ensures curOutPtr == old(curOutPtr) + ToI32(AlignUp(b.len, g.bs) % B32)
    {
      var rndUpLen := AlignUp(b.len, g.bs);
      var zeroLen := rndUpLen - b.len;
      QuotientOfMultiple(DivRoundUp(b.len, g.bs), g.bs);
      var header := ChunkHeader(CHUNK_TYPE_RAW, 0, rndUpLen / g.bs % B32, (CHUNK_HEADER_LEN + rndUpLen) % B32);
      var data := seq(b.len, i requires 0 <= i < b.len => ByteAt(g.st, b.backing, i));
      var zeros := seq(zeroLen, i => 0);
      out := out + header.Bytes();
      out := out + data;
      if zeroLen != 0 {
        out := out + zeros;
      }
      assert data + zeros == PaddedData(g, b);
      assert out == old(out) + (header.Bytes() + PaddedData(g, b)) by {
        if zeroLen == 0 {
          assert data + zeros == data;
        }
      }
      curOutPtr := curOutPtr + ToI32(rndUpLen % B32);
      chunkCnt := chunkCnt + 1;
    }

    /** sparse_file_write_block */
    method WriteBlock(b: Block)
      requires g.bs > 0
      modifies this
      ensures out == old(out) + ChunkOf(g, b).Bytes() && chunkCnt == old(chunkCnt) + 1
      ensures curOutPtr == old(curOutPtr) + ToI32(AlignUp(b.len, g.bs) % B32)
    {
      match b.backing
      case Fill(v) => WriteFillChunk(b.len, v);
      case _ => WriteDataChunk(b);
    }
  }

  function HeaderFor(bs: nat, len: nat, chunks: nat): SparseHeader
    requires bs > 0
  {
    SparseHeader(SPARSE_HEADER_MAGIC, 1, 0, SPARSE_HEADER_LEN, CHUNK_HEADER_LEN,
                 bs % B32, DivRoundUp(len, bs) % B32, chunks % B32, 0)
  }

  /** The chunk the end of the image gets: counted by sparse_count_chunks whenever blocks are
      missing, written by write_all_blocks only when the missing bytes are whole blocks. */
  ghost function EndCounted(bs: nat, len: nat, last: nat): nat
    requires bs > 0
  {
    if last < DivRoundUp(len, bs) then 1 else 0
  }

  ghost function EndWritten(bs: nat, len: nat, last: nat): seq<Chunk>
    requires bs > 0
  {
    var pad := len - last * bs;
    if pad > 0 && pad % bs == 0 then [Skip(pad / bs)] else []
  }

  /** The header's total_chunks equals the chunks emitted exactly when the image length is a
      multiple of the block size, or the last block reaches beyond it. (The second case fails an
      assertion where assertions are compiled in.) */
  lemma CountAgreesIffWholeBlocks(bs: nat, len: nat, last: nat)
    requires bs > 0
    ensures EndCounted(bs, len, last) == |EndWritten(bs, len, last)| <==> len % bs == 0 || last * bs > len
    ensures len % bs == 0 && last * bs <= len ==>
              EndWritten(bs, len, last) == GapChunks(last, len / bs) && DivRoundUp(len, bs) == len / bs
  {
    if last * bs <= len {
      CountInside(bs, len, last);
    } else {
      BlockOrder(last, DivRoundUp(len, bs) - 1, bs);
      assert (DivRoundUp(len, bs) - 1) * bs == DivRoundUp(len, bs) * bs - bs;
    }
  }

  lemma CountInside(bs: nat, len: nat, last: nat)
    requires bs > 0 && last * bs <= len
    ensures EndCounted(bs, len, last) == |EndWritten(bs, len, last)| <==> len % bs == 0
    ensures len % bs == 0 ==> EndWritten(bs, len, last) == GapChunks(last, len / bs) && DivRoundUp(len, bs) == len / bs
  {
    var q, r := len / bs, len % bs;
    var total := DivRoundUp(len, bs);
    assert len == q * bs + r;
    BlockOrder(q + 1, last, bs);
    assert (q + 1) * bs == q * bs + bs;
    assert last <= q;
    var pad := len - last * bs;
    assert pad == (q - last) * bs + r by {
      assert (q - last) * bs == q * bs - last * bs;
    }
    RemainderOf(q - last, r, bs);
    BlockOrder(total, q, bs);
    BlockOrder(q, total, bs);
    BlockOrder(q + 1, total, bs);
    if r == 0 {
      assert total == q;
      assert pad / bs == q - last;
      if last < q {
        MulPositive(q - last, bs);
      }
    } else {
      assert total > q;
    }
  }

  lemma RemainderOf(q: nat, r: nat, bs: nat)
    requires r < bs
    ensures (q * bs + r) % bs == r && (q * bs + r) / bs == q
  {
    var d, m := (q * bs + r) / bs, (q * bs + r) % bs;
    assert q * bs + r == d * bs + m;
    BlockOrder(q, d, bs);
    BlockOrder(d, q, bs);
  }

  // ------------------------------------- counting and writing over the list

  /** sparse_count_chunks */
  method CountChunks(list: List, len: nat, ghost g: Geometry) returns (chunks: nat)
    requires list.Chained() && g.bs == list.bs
    ensures chunks == |ListChunks(g, list.Contents())| + EndCounted(g.bs, len, LastBlock(g.bs, list.Contents()))
  {
    hide Linked, Distinct, Values, ChunkOf;
    ghost var s, k := list.Contents(), 0;
    var lastBlock := 0;
    chunks := 0;
    var bb := list.dataBlocks;
    assert s[..0] == [];
    while bb != null
      invariant 0 <= k <= |s| && bb == if k < |s| then list.spine[k] else null
      invariant lastBlock == LastBlock(g.bs, s[..k]) && chunks == |ListChunks(g, s[..k])|
      decreases |s| - k
    {
      ListChunksStep(g, s, k);
      if bb.val.block > lastBlock {
        chunks := chunks + 1;
      }
      chunks := chunks + 1;
      lastBlock := bb.val.block + DivRoundUp(bb.val.len, list.bs);
      list.NextOf(k);
      bb, k := bb.next, k + 1;
    }
    assert s[..k] == s;
    if lastBlock < DivRoundUp(len, list.bs) {
      chunks := chunks + 1;
    }
  }

  /** write_all_blocks: emits the chunks of the list and, if it can, the closing skip. (With
      assertions compiled in, a list that reaches beyond the length ends the program instead.) */
  method WriteAllBlocks(list: List, len: nat, out: OutputFile)
    requires list.Chained() && out.g.bs == list.bs
    modifies out
    ensures var written := ListChunks(out.g, list.Contents()) + EndWritten(list.bs, len, LastBlock(list.bs, list.Contents()));
            out.out == old(out.out) + Encode(written) && out.chunkCnt == old(out.chunkCnt) + |written|
  {
    hide Linked, Distinct, Values, ChunkOf, Chunk.Bytes, ListChunks, DivRoundUp, Encode;
    ghost var s, k, start := list.Contents(), 0, out.out;
    var lastBlock := 0;
    var bb := list.dataBlocks;
    assert s[..0] == [];
    NoChunks(out.g);
    assert start + [] == start;
    while bb != null
      invariant 0 <= k <= |s| && bb == if k < |s| then list.spine[k] else null
      invariant lastBlock == LastBlock(list.bs, s[..k])
      invariant out.out == start + Encode(ListChunks(out.g, s[..k]))
      invariant out.chunkCnt == old(out.chunkCnt) + |ListChunks(out.g, s[..k])|
      decreases |s| - k
    {
      ListChunksStep(out.g, s, k);
      WriteWithGap(out, bb.val, lastBlock, start, ListChunks(out.g, s[..k]));
      lastBlock := bb.val.block + DivRoundUp(bb.val.len, list.bs);
      list.NextOf(k);
      bb, k := bb.next, k + 1;
    }
    assert s[..k] == s;
    WriteEnd(out, len, lastBlock, start, ListChunks(out.g, s));
  }

  /** A block and the skip chunk it may need in front. */
  method WriteWithGap(out: OutputFile, b: Block, lastBlock: nat, ghost start: seq<byte>, ghost done: seq<Chunk>)
    requires out.g.bs > 0 && out.out == start + Encode(done)
    modifies out
    ensures var now := done + GapChunks(lastBlock, b.block) + [ChunkOf(out.g, b)];
            out.out == start + Encode(now) && out.chunkCnt == old(out.chunkCnt) + |now| - |done|
  {
    hide ChunkOf, Chunk.Bytes, Encode;
    EncodeStep(start, done, GapChunks(lastBlock, b.block), ChunkOf(out.g, b));
    if b.block > lastBlock {
      var blocks := b.block - lastBlock;
      QuotientOfMultiple(blocks, out.g.bs);
      var _ := out.WriteSkipChunk(blocks * out.g.bs);
    }
    out.WriteBlock(b);
  }

  /** The closing skip, which is refused if it is not whole blocks. */
  method WriteEnd(out: OutputFile, len: nat, lastBlock: nat, ghost start: seq<byte>, ghost done: seq<Chunk>)
    requires out.g.bs > 0 && out.out == start + Encode(done)
    modifies out
    ensures var now := done + EndWritten(out.g.bs, len, lastBlock);
            out.out == start + Encode(now) && out.chunkCnt == old(out.chunkCnt) + |now| - |done|
  {
    hide Chunk.Bytes, Encode;
    var pad := len - lastBlock * out.g.bs;
    EncodeConcat(done, EndWritten(out.g.bs, len, lastBlock));
    NoChunks(out.g);
    assert Encode(done) + [] == Encode(done);
    if pad > 0 {
      var _ := out.WriteSkipChunk(pad);
      EncodeOne(Skip(pad / out.g.bs));
    }
  }

  lemma NoChunks(g: Geometry)
    requires g.bs > 0
    ensures ListChunks(g, []) == [] && Encode([]) == []
  {
  }

  lemma EncodeStep(start: seq<byte>, done: seq<Chunk>, gap: seq<Chunk>, c: Chunk)
    requires gap == [] || |gap| == 1
    ensures start + Encode(done + gap + [c])
         == (if gap == [] then start + Encode(done) else start + Encode(done) + gap[0].Bytes()) + c.Bytes()
  {
    hide Chunk.Bytes;
    EncodeConcat(done + gap, [c]);
    EncodeConcat(done, gap);
    EncodeOne(c);
    if gap != [] {
      EncodeOne(gap[0]);
      assert gap == [gap[0]];
    }
  }

  /** The sparse form of a list: header and chunks. */
  ghost function SparseBytes(g: Geometry, len: nat, s: seq<Block>): seq<byte>
    requires g.bs > 0
  {
    var cs := AllChunks(g, len / g.bs, s);
    HeaderFor(g.bs, len, |cs|).Bytes() + Encode(cs)
  }

  /** The sparse form for any length: the header counts a closing skip that may not be written. */
  ghost function SparseForm(g: Geometry, len: nat, s: seq<Block>): seq<byte>
    requires g.bs > 0
  {
    var cs, last := ListChunks(g, s), LastBlock(g.bs, s);
    HeaderFor(g.bs, len, |cs| + EndCounted(g.bs, len, last)).Bytes() + Encode(cs + EndWritten(g.bs, len, last))
  }

  /** For an image of whole blocks the header counts what is written. */
  lemma WholeForm(g: Geometry, len: nat, s: seq<Block>)
    requires g.bs > 0 && len % g.bs == 0 && LastBlock(g.bs, s) * g.bs <= len
    ensures SparseForm(g, len, s) == SparseBytes(g, len, s)
  {
    hide ListChunks, Encode, HeaderFor, LastBlock;
    CountAgreesIffWholeBlocks(g.bs, len, LastBlock(g.bs, s));
  }

  lemma FormHeader(g: Geometry, len: nat, s: seq<Block>)
    requires g.bs > 0
    ensures |SparseForm(g, len, s)| >= SPARSE_HEADER_LEN
    ensures SparseHeader.Read(SparseForm(g, len, s))
         == HeaderFor(g.bs, len, |ListChunks(g, s)| + EndCounted(g.bs, len, LastBlock(g.bs, s)))
  {
    hide ListChunks, Encode, HeaderFor, SparseHeader.Read, SparseHeader.Bytes, LastBlock;
    var last := LastBlock(g.bs, s);
    SparseHeaderRoundTrip(HeaderFor(g.bs, len, |ListChunks(g, s)| + EndCounted(g.bs, len, last)),
                          Encode(ListChunks(g, s) + EndWritten(g.bs, len, last)));
  }

  /** sparse_file_write. The header says what the image is. */
  method SparseFileWrite(list: List, len: nat, g: Geometry) returns (out: OutputFile)
    requires list.Chained() && g.bs == list.bs
    ensures out.out == SparseForm(g, len, list.Contents())
    ensures out.chunkCnt == |ListChunks(g, list.Contents())| + |EndWritten(g.bs, len, LastBlock(g.bs, list.Contents()))|
    ensures var last := LastBlock(g.bs, list.Contents());
            |out.out| >= SPARSE_HEADER_LEN && SparseHeader.Read(out.out) ==
            SparseHeader(0xed26ff3a, 1, 0, 28, 12, g.bs % B32, DivRoundUp(len, g.bs) % B32,
                         (|ListChunks(g, list.Contents())| + EndCounted(g.bs, len, last)) % B32, 0)
  {
    hide Linked, Distinct, Values, ListChunks, Encode, SparseHeader.Bytes, SparseHeader.Read, LastBlock;
    FormHeader(g, len, list.Contents());
    var chunks := CountChunks(list, len, g);
    out := new OutputFile(g, len, chunks);
    WriteAllBlocks(list, len, out);
  }
}
