/** The Android sparse image format (sparse_format.h): little-endian headers, the three kinds
    of chunks, and the reading of a chunk stream (process_chunk and its helpers). */
module SparseFormat {
  import opened Words
  import opened Blocks
  import opened Resparse

  const SPARSE_HEADER_MAGIC: u32 := 0xed26ff3a
  const CHUNK_TYPE_RAW: u16 := 0xCAC1
  const CHUNK_TYPE_FILL: u16 := 0xCAC2
  const CHUNK_TYPE_DONT_CARE: u16 := 0xCAC3
  const CHUNK_TYPE_CRC32: u16 := 0xCAC4

  // ------------------------------------------------- little-endian integers

  function Le16(x: u16): (s: seq<byte>)
    ensures |s| == 2
  {
    [x % 0x100, x / 0x100]
  }

  function Le32(x: u32): (s: seq<byte>)
    ensures |s| == 4
  {
    [FillByte(x, 0), FillByte(x, 1), FillByte(x, 2), FillByte(x, 3)]
  }

  function Get16(buf: seq<byte>, off: nat): u16
    requires off + 2 <= |buf|
  {
    var b0: int, b1: int := buf[off], buf[off + 1];
    b0 + b1 * 0x100
  }

  function Get32(buf: seq<byte>, off: nat): u32
    requires off + 4 <= |buf|
  {
    var b0: int, b1: int, b2: int, b3: int := buf[off], buf[off + 1], buf[off + 2], buf[off + 3];
    b0 + b1 * 0x100 + b2 * 0x1_0000 + b3 * 0x100_0000
  }

  lemma Get16Le16(buf: seq<byte>, off: nat, x: u16)
    requires off + 2 <= |buf| && buf[off..off + 2] == Le16(x)
    ensures Get16(buf, off) == x
  {
    assert buf[off] == buf[off..off + 2][0] && buf[off + 1] == buf[off..off + 2][1];
  }

  lemma Get32Le32(buf: seq<byte>, off: nat, x: u32)
    requires off + 4 <= |buf| && buf[off..off + 4] == Le32(x)
    ensures Get32(buf, off) == x
  {
    var d := buf[off..off + 4];
    assert buf[off] == d[0] && buf[off + 1] == d[1] && buf[off + 2] == d[2] && buf[off + 3] == d[3];
    assert x / 0x1_0000 == x / 0x100 / 0x100 && x / 0x100_0000 == x / 0x1_0000 / 0x100;
  }

  // ---------------------------------------------------------------- headers

  datatype SparseHeader = SparseHeader(magic: u32, major: u16, minor: u16, fileHdrSz: u16, chunkHdrSz: u16,
                                       blkSz: u32, totalBlks: u32, totalChunks: u32, checksum: u32)
  {
    function Bytes(): (s: seq<byte>)
      ensures |s| == SPARSE_HEADER_LEN
    {
      Le32(magic) + Le16(major) + Le16(minor) + Le16(fileHdrSz) + Le16(chunkHdrSz)
      + Le32(blkSz) + Le32(totalBlks) + Le32(totalChunks) + Le32(checksum)
    }

    static function Read(buf: seq<byte>): SparseHeader
      requires |buf| >= SPARSE_HEADER_LEN
    {
      SparseHeader(Get32(buf, 0), Get16(buf, 4), Get16(buf, 6), Get16(buf, 8), Get16(buf, 10),
                   Get32(buf, 12), Get32(buf, 16), Get32(buf, 20), Get32(buf, 24))
    }
  }

  lemma SparseHeaderRoundTrip(h: SparseHeader, rest: seq<byte>)
    ensures SparseHeader.Read(h.Bytes() + rest) == h
  {
    hide Le16, Le32, Get16, Get32;
    var b := h.Bytes() + rest;
    assert b[0..4] == Le32(h.magic) && b[4..6] == Le16(h.major) && b[6..8] == Le16(h.minor);
    assert b[8..10] == Le16(h.fileHdrSz) && b[10..12] == Le16(h.chunkHdrSz) && b[12..16] == Le32(h.blkSz);
    assert b[16..20] == Le32(h.totalBlks) && b[20..24] == Le32(h.totalChunks) && b[24..28] == Le32(h.checksum);
    Get32Le32(b, 0, h.magic);
    Get16Le16(b, 4, h.major);
    Get16Le16(b, 6, h.minor);
    Get16Le16(b, 8, h.fileHdrSz);
    Get16Le16(b, 10, h.chunkHdrSz);
    Get32Le32(b, 12, h.blkSz);
    Get32Le32(b, 16, h.totalBlks);
    Get32Le32(b, 20, h.totalChunks);
    Get32Le32(b, 24, h.checksum);
  }

  datatype ChunkHeader = ChunkHeader(kind: u16, reserved: u16, blocks: u32, totalSz: u32)
  {
    function Bytes(): (s: seq<byte>)
      ensures |s| == CHUNK_HEADER_LEN
    {
      Le16(kind) + Le16(reserved) + Le32(blocks) + Le32(totalSz)
    }

    static function Read(buf: seq<byte>, off: nat): ChunkHeader
      requires off + CHUNK_HEADER_LEN <= |buf|
    {
      ChunkHeader(Get16(buf, off), Get16(buf, off + 2), Get32(buf, off + 4), Get32(buf, off + 8))
    }
  }

  lemma ChunkHeaderRoundTrip(h: ChunkHeader, buf: seq<byte>, off: nat)
    requires off + CHUNK_HEADER_LEN <= |buf| && buf[off..off + CHUNK_HEADER_LEN] == h.Bytes()
    ensures ChunkHeader.Read(buf, off) == h
  {
    hide Le16, Le32, Get16, Get32;
    var d := buf[off..off + CHUNK_HEADER_LEN];
    assert d[0..2] == buf[off..off + 2] && d[0..2] == Le16(h.kind);
    assert d[2..4] == buf[off + 2..off + 4] && d[2..4] == Le16(h.reserved);
    assert d[4..8] == buf[off + 4..off + 8] && d[4..8] == Le32(h.blocks);
    assert d[8..12] == buf[off + 8..off + 12] && d[8..12] == Le32(h.totalSz);
    Get16Le16(buf, off, h.kind);
    Get16Le16(buf, off + 2, h.reserved);
    Get32Le32(buf, off + 4, h.blocks);
    Get32Le32(buf, off + 8, h.totalSz);
  }

  // ----------------------------------------------------------------- chunks

  datatype Chunk =
    | Raw(blocks: nat, data: seq<byte>)
    | FillWith(blocks: nat, val: u32)
    | Skip(blocks: nat)
  {
    function Header(): ChunkHeader
    {
      match this
      case Raw(n, d) => ChunkHeader(CHUNK_TYPE_RAW, 0, n % B32, (CHUNK_HEADER_LEN + |d|) % B32)
      case FillWith(n, v) => ChunkHeader(CHUNK_TYPE_FILL, 0, n % B32, CHUNK_HEADER_LEN + 4)
      case Skip(n) => ChunkHeader(CHUNK_TYPE_DONT_CARE, 0, n % B32, CHUNK_HEADER_LEN)
    }

    function Payload(): seq<byte>
    {
      match this
      case Raw(n, d) => d
      case FillWith(n, v) => Le32(v)
      case Skip(n) => []
    }

    function Bytes(): seq<byte>
    {
      Header().Bytes() + Payload()
    }

    /** The block count is not negative as an int, the length of what is added fits 32 bits, and
        a raw chunk carries whole blocks. A skip adds nothing and may be of any length. */
    ghost predicate Fits(bs: nat)
    {
      && blocks < 0x8000_0000
      && (FillWith? ==> blocks * bs < B32)
      && (Raw? ==> |data| == blocks * bs && CHUNK_HEADER_LEN + |data| < B32)
    }
  }

  function Encode(cs: seq<Chunk>): seq<byte>
  {
    if cs == [] then [] else cs[0].Bytes() + Encode(cs[1..])
  }

  function SumBlocks(cs: seq<Chunk>): nat
  {
    if cs == [] then 0 else cs[0].blocks + SumBlocks(cs[1..])
  }

  // ---------------------------------------------------------------- reading

  /** Reading one chunk: what it adds to the file, how many blocks it stands for, and where
      the next chunk starts. */
  datatype Step = Failed | Read(add: Option<Block>, blocks: nat, next: nat)

  /** process_chunk for the chunk whose header is at `off` (no CRC checking). `fd` is the file
      being read; raw data stays in it. */
  function ProcessChunk(buf: seq<byte>, fd: int, off: nat, hdrSz: nat, bs: nat, cur: nat): Step
    requires bs > 0 && hdrSz >= CHUNK_HEADER_LEN
  {
    if off + CHUNK_HEADER_LEN > |buf| then Failed
    else
      var h := ChunkHeader.Read(buf, off);
      var data := off + hdrSz;
      var size := (h.totalSz - hdrSz) % B32;
      var len := h.blocks * bs % B32;
      if h.kind == CHUNK_TYPE_RAW then
        if size % bs != 0 || size / bs != h.blocks || h.blocks >= 0x8000_0000 then Failed
        else Read(Some(Block(cur, len, Fd(fd, data))), h.blocks, data + len)
      else if h.kind == CHUNK_TYPE_FILL then
        if size != 4 || data + 4 > |buf| || h.blocks >= 0x8000_0000 then Failed
        else Read(Some(Block(cur, len, Fill(Get32(buf, data)))), h.blocks, data + 4)
      else if h.kind == CHUNK_TYPE_DONT_CARE then
        if size != 0 || h.blocks >= 0x8000_0000 then Failed else Read(None, h.blocks, data)
      else if h.kind == CHUNK_TYPE_CRC32 then
        if size != 4 || data + 4 > |buf| then Failed else Read(None, 0, data + 4)
      else Read(None, 0, data)
  }

  datatype Outcome = Error | Done(adds: seq<Block>, cur: nat)

  /** The chunk loop of sparse_file_read_sparse. */
  function ReadChunks(buf: seq<byte>, fd: int, off: nat, n: nat, hdrSz: nat, bs: nat, cur: nat): Outcome
    requires bs > 0 && hdrSz >= CHUNK_HEADER_LEN
    decreases n
  {
    if n == 0 then Done([], cur)
    else
      match ProcessChunk(buf, fd, off, hdrSz, bs, cur)
      case Failed => Error
      case Read(add, blocks, next) =>
        match ReadChunks(buf, fd, next, n - 1, hdrSz, bs, (cur + blocks) % B32)
        case Error => Error
        case Done(adds, end) => Done(AddsOfStep(add) + adds, end)
  }

  /** What a chunk adds when it is read at block `cur` with its header at `off`. */
  function AddOf(c: Chunk, bs: nat, fd: int, off: nat, cur: nat): seq<Block>
  {
    match c
    case Raw(n, d) => [Block(cur, n * bs, Fd(fd, off + CHUNK_HEADER_LEN))]
    case FillWith(n, v) => [Block(cur, n * bs, Fill(v))]
    case Skip(n) => []
  }

  function AddsOf(cs: seq<Chunk>, bs: nat, fd: int, off: nat, cur: nat): seq<Block>
  {
    if cs == [] then []
    else AddOf(cs[0], bs, fd, off, cur) + AddsOf(cs[1..], bs, fd, off + |cs[0].Bytes()|, cur + cs[0].blocks)
  }

  /** The chunk's bytes stand at `off`, so its header and payload can be read there. */
  lemma ChunkInPlace(c: Chunk, buf: seq<byte>, off: nat)
    requires off + |c.Bytes()| <= |buf| && buf[off..off + |c.Bytes()|] == c.Bytes()
    ensures |c.Bytes()| == CHUNK_HEADER_LEN + |c.Payload()|
    ensures ChunkHeader.Read(buf, off) == c.Header()
    ensures buf[off + CHUNK_HEADER_LEN..off + |c.Bytes()|] == c.Payload()
  {
    hide Get16, Get32, Chunk.Payload, Chunk.Header;
    var h, bytes := c.Header(), c.Bytes();
    assert buf[off..off + CHUNK_HEADER_LEN] == bytes[..CHUNK_HEADER_LEN] == h.Bytes();
    ChunkHeaderRoundTrip(h, buf, off);
    assert buf[off + CHUNK_HEADER_LEN..off + |bytes|] == bytes[CHUNK_HEADER_LEN..] == c.Payload();
  }

  function AddsOfStep(add: Option<Block>): seq<Block>
  {
    match add case None => [] case Some(b) => [b]
  }

  lemma ReadOneChunk(c: Chunk, bs: nat, fd: int, buf: seq<byte>, off: nat, cur: nat)
    requires bs > 0 && c.Fits(bs)
    requires off + |c.Bytes()| <= |buf| && buf[off..off + |c.Bytes()|] == c.Bytes()
    ensures var step := ProcessChunk(buf, fd, off, CHUNK_HEADER_LEN, bs, cur);
            && step.Read? && step.blocks == c.blocks && step.next == off + |c.Bytes()|
            && AddsOfStep(step.add) == AddOf(c, bs, fd, off, cur)
  {
    hide Get16, Get32, Le32, Le16, Chunk.Bytes, ChunkHeader.Read;
    ChunkInPlace(c, buf, off);
    var h := c.Header();
    assert h.blocks == c.blocks && (!c.Skip? ==> h.blocks * bs % B32 == c.blocks * bs);
    assert (h.totalSz - CHUNK_HEADER_LEN) % B32 == |c.Payload()| by {
      assert h.totalSz == CHUNK_HEADER_LEN + |c.Payload()|;
    }
    match c
    case Raw(n, d) =>
      QuotientOfMultiple(n, bs);
    case FillWith(n, v) =>
      Get32Le32(buf, off + CHUNK_HEADER_LEN, v);
    case Skip(n) =>
  }

  lemma SplitInPlace(buf: seq<byte>, off: nat, a: seq<byte>, b: seq<byte>)
    requires off + |a + b| <= |buf| && buf[off..off + |a + b|] == a + b
    ensures buf[off..off + |a|] == a && buf[off + |a|..off + |a| + |b|] == b
  {
    var all := buf[off..off + |a + b|];
    assert buf[off..off + |a|] == all[..|a|] && buf[off + |a|..off + |a| + |b|] == all[|a|..];
  }

  /** Reading an encoded chunk stream returns what the chunks say, wherever it stands. */
  lemma {:induction false} ReadEncoded(cs: seq<Chunk>, bs: nat, fd: int, buf: seq<byte>, off: nat, cur: nat)
    requires bs > 0 && forall i :: 0 <= i < |cs| ==> cs[i].Fits(bs)
    requires off + |Encode(cs)| <= |buf| && buf[off..off + |Encode(cs)|] == Encode(cs)
    requires cur + SumBlocks(cs) < B32
    ensures ReadChunks(buf, fd, off, |cs|, CHUNK_HEADER_LEN, bs, cur)
         == Done(AddsOf(cs, bs, fd, off, cur), cur + SumBlocks(cs))
  {
    hide ProcessChunk, Chunk.Bytes, Chunk.Fits, AddOf;
    if cs != [] {
      var c, rest := cs[0], cs[1..];
      SplitInPlace(buf, off, c.Bytes(), Encode(rest));
      ReadOneChunk(c, bs, fd, buf, off, cur);
      ReadEncoded(rest, bs, fd, buf, off + |c.Bytes()|, cur + c.blocks);
    }
  }
}
