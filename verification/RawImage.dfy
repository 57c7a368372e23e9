/** Raw images: reading one block by block with fill detection (sparse_file_read_normal),
    writing a list as a raw image (the "normal" writers), and the identity of the whole
    path raw -> sparse -> raw. */
module RawImage {
  import opened Words
  import opened Blocks
  import opened Queue
  import opened Adds
  import opened BlockList
  import opened Resparse
  import opened SparseFormat
  import opened SparseWriter
  import opened SparseReader

  // ------------------------------------------------- sparse_file_read_normal

  /** All 32-bit words of the block at `off` equal its first. */
  predicate Uniform(img: seq<byte>, off: nat, bs: nat)
    requires bs >= 4 && off + bs <= |img|
  {
    forall i :: 1 <= i < bs / 4 ==> WordAt(img, off, i) == WordAt(img, off, 0)
  }

  function WordAt(img: seq<byte>, off: nat, i: nat): u32
    requires off + 4 * i + 4 <= |img|
  {
    Get32(img, off + 4 * i)
  }

  /** What block k of the image becomes: a fill, or a reference into the file. */
  function NormalAdd(img: seq<byte>, fd: int, bs: nat, k: nat): Block
    requires bs >= 4 && k * bs < |img|
  {
    var off := k * bs;
    if off + bs <= |img| then
      if Uniform(img, off, bs) then Block(k, bs, Fill(WordAt(img, off, 0))) else Block(k, bs, Fd(fd, off))
    else Block(k, |img| - off, Fd(fd, off))
  }

  /** A block becomes a fill exactly if it is whole and its bytes repeat the first four; then these
      are the bytes of the value. */
  lemma FillIffRepeats(img: seq<byte>, fd: int, bs: nat, k: nat)
    requires bs >= 4 && bs % 4 == 0 && k * bs < |img|
    ensures var b, off := NormalAdd(img, fd, bs, k), k * bs;
            && b.block == k && (b.backing.Fill? <==> off + bs <= |img| && forall i :: 4 <= i < bs ==> img[off + i] == img[off + i % 4])
            && (b.backing.Fill? ==> forall i :: 0 <= i < 4 ==> FillByte(b.backing.val, i) == img[off + i])
            && (!b.backing.Fill? ==> b.backing == Fd(fd, off)) && b.len == if off + bs <= |img| then bs else |img| - off
  {
    if k * bs + bs <= |img| {
      UniformRepeats(img, k * bs, bs);
      WordBytes(img, k * bs, 0);
    }
    hide Uniform, WordAt;
  }

  lemma UniformRepeats(img: seq<byte>, off: nat, bs: nat)
    requires bs >= 4 && bs % 4 == 0 && off + bs <= |img|
    ensures Uniform(img, off, bs) <==> forall i :: 4 <= i < bs ==> img[off + i] == img[off + i % 4]
  {
    hide WordAt;
    if Uniform(img, off, bs) {
      forall i | 4 <= i < bs ensures img[off + i] == img[off + i % 4] {
        assert WordAt(img, off, i / 4) == WordAt(img, off, 0);
        SameByte(img, off, i);
      }
    }
    if forall i :: 4 <= i < bs ==> img[off + i] == img[off + i % 4] {
      forall j | 1 <= j < bs / 4 ensures WordAt(img, off, j) == WordAt(img, off, 0) {
        Repeated(img, off, bs, 4 * j, 0);
        Repeated(img, off, bs, 4 * j + 1, 1);
        Repeated(img, off, bs, 4 * j + 2, 2);
        Repeated(img, off, bs, 4 * j + 3, 3);
        SameWord(img, off, j);
      }
    }
  }

  lemma Repeated(img: seq<byte>, off: nat, bs: nat, i: nat, r: nat)
    requires off + bs <= |img| && 4 <= i < bs && i % 4 == r && forall i :: 4 <= i < bs ==> img[off + i] == img[off + i % 4]
    ensures img[off + i] == img[off + r]
  {
  }

  lemma SameByte(img: seq<byte>, off: nat, i: nat)
    requires off + 4 * (i / 4) + 4 <= |img| && WordAt(img, off, i / 4) == WordAt(img, off, 0)
    ensures img[off + i] == img[off + i % 4]
  {
    hide WordAt, FillByte;
    WordBytes(img, off, i / 4);
    WordBytes(img, off, 0);
    assert img[off + 4 * (i / 4) + i % 4] == FillByte(WordAt(img, off, 0), i % 4) == img[off + 4 * 0 + i % 4];
  }

  lemma SameWord(img: seq<byte>, off: nat, j: nat)
    requires off + 4 * j + 4 <= |img| && img[off + 4 * j] == img[off] && img[off + (4 * j + 1)] == img[off + 1]
    requires img[off + (4 * j + 2)] == img[off + 2] && img[off + (4 * j + 3)] == img[off + 3]
    ensures WordAt(img, off, j) == WordAt(img, off, 0)
  {
  }

  /** The first k adds. */
  function NormalAdds(img: seq<byte>, fd: int, bs: nat, k: nat): (adds: seq<Block>)
    requires bs >= 4 && (k > 0 ==> (k - 1) * bs < |img|)
    ensures |adds| == k
    decreases k
  {
    if k == 0 then []
    else
      MulMonotone(k - 2, k - 1, bs);
      NormalAdds(img, fd, bs, k - 1) + [NormalAdd(img, fd, bs, k - 1)]
  }

  lemma {:induction false} NormalAddsAt(img: seq<byte>, fd: int, bs: nat, k: nat, i: nat)
    requires bs >= 4 && i < k && (k - 1) * bs < |img|
    ensures i * bs < |img| && NormalAdds(img, fd, bs, k)[i] == NormalAdd(img, fd, bs, i)
  {
    MulMonotone(k - 2, k - 1, bs);
    if i < k - 1 {
      NormalAddsAt(img, fd, bs, k - 1, i);
    }
  }

  /** Reads a raw file of exactly `len` bytes; the loop's block buffer is the slice at offset. */
  method SparseFileReadNormal(img: seq<byte>, fd: int, bs: nat) returns (adds: seq<Block>)
    requires bs >= 4
    ensures adds == RawAdds(img, fd, bs)
  {
    adds := [];
    var remain, offset, block := |img|, 0, 0;
    while remain > 0
      invariant 0 <= remain <= |img| && offset == |img| - remain
      invariant if remain > 0 then offset == block * bs else block == DivRoundUp(|img|, bs)
      invariant block > 0 ==> (block - 1) * bs < |img|
      invariant adds == NormalAdds(img, fd, bs, block)
      decreases remain
    {
      var toRead := if remain < bs then remain else bs;
      var sparseBlock := false;
      if toRead == bs {
        sparseBlock := BlockIsUniform(img, offset, bs);
      }
      if sparseBlock {
        adds := adds + [Block(block, toRead, Fill(WordAt(img, offset, 0)))];
      } else {
        adds := adds + [Block(block, toRead, Fd(fd, offset))];
      }
      remain := remain - toRead;
      offset := offset + toRead;
      LastOrNext(|img|, bs, block);
      block := block + 1;
    }
  }

  lemma LastOrNext(len: nat, bs: nat, block: nat)
    requires bs > 0 && block * bs < len
    ensures if len - block * bs > bs then (block + 1) * bs < len else DivRoundUp(len, bs) == block + 1
    ensures (block + 1) * bs == block * bs + bs
  {
    assert (block + 1) * bs == block * bs + bs;
    var d := DivRoundUp(len, bs);
    BlockOrder(d, block + 1, bs);
    BlockOrder(block + 1, d, bs);
    BlockOrder(d, block, bs);
  }

  method BlockIsUniform(img: seq<byte>, off: nat, bs: nat) returns (same: bool)
    requires bs >= 4 && off + bs <= |img|
    ensures same <==> Uniform(img, off, bs)
  {
    var i := 1;
    while i < bs / 4
      invariant 1 <= i && forall j :: 1 <= j < i && j < bs / 4 ==> WordAt(img, off, j) == WordAt(img, off, 0)
    {
      if WordAt(img, off, 0) != WordAt(img, off, i) {
        return false;
      }
      i := i + 1;
    }
    return true;
  }

  // ------------------------------------------------------ content of the adds

  lemma WordBytes(img: seq<byte>, off: nat, i: nat)
    requires off + 4 * i + 4 <= |img|
    ensures forall j :: 0 <= j < 4 ==> FillByte(WordAt(img, off, i), j) == img[off + 4 * i + j]
  {
    var p := off + 4 * i;
    var b0: int, b1: int, b2: int, b3: int := img[p], img[p + 1], img[p + 2], img[p + 3];
    var w := b0 + b1 * 0x100 + b2 * 0x1_0000 + b3 * 0x100_0000;
    assert w % 0x100 == b0 && w / 0x100 == b1 + b2 * 0x100 + b3 * 0x1_0000;
    assert w / 0x1_0000 == w / 0x100 / 0x100 == b2 + b3 * 0x100;
    assert w / 0x100_0000 == w / 0x1_0000 / 0x100 == b3;
  }

  /** A uniform block is its first word repeated. */
  lemma UniformBytes(img: seq<byte>, off: nat, bs: nat, j: nat)
    requires bs >= 4 && bs % 4 == 0 && off + bs <= |img| && j < bs && Uniform(img, off, bs)
    ensures FillByte(WordAt(img, off, 0), j) == img[off + j]
  {
    hide Get32;
    var i, r := j / 4, j % 4;
    assert j == 4 * i + r;
    assert i < bs / 4 && off + 4 * i + 4 <= |img|;
    WordBytes(img, off, i);
    if i > 0 {
      assert WordAt(img, off, i) == WordAt(img, off, 0);
    }
    assert FillByte(WordAt(img, off, i), r) == img[off + 4 * i + r];
  }

  /** The descriptor fd is the raw file. */
  ghost predicate Backs(g: Geometry, fd: int, img: seq<byte>)
  {
    forall i :: 0 <= i < |img| ==> g.st.fd(fd, i) == img[i]
  }

  lemma NormalAddContent(g: Geometry, img: seq<byte>, fd: int, k: nat, o: int)
    requires g.Valid() && Backs(g, fd, img) && k * g.bs < |img|
    ensures var b := NormalAdd(img, fd, g.bs, k);
            && b.len > 0 && End(g, b) <= |img|
            && ByteOf(g, b, o) == if k * g.bs <= o < k * g.bs + g.bs && o < |img| then Some(img[o]) else None
  {
    hide Uniform, WordAt;
    var b := NormalAdd(img, fd, g.bs, k);
    if Covers(g, b, o) && b.backing.Fill? {
      UniformBytes(img, k * g.bs, g.bs, o - k * g.bs);
    }
  }

  lemma {:induction false} NormalAddsContent(g: Geometry, img: seq<byte>, fd: int, k: nat, o: int)
    requires g.Valid() && Backs(g, fd, img) && (k > 0 ==> (k - 1) * g.bs < |img|)
    ensures At(g, NormalAdds(img, fd, g.bs, k), o) == if 0 <= o < k * g.bs && o < |img| then Some(img[o]) else None
  {
    hide NormalAdd;
    if k > 0 {
      MulMonotone(k - 2, k - 1, g.bs);
      assert k * g.bs == (k - 1) * g.bs + g.bs;
      var init, b := NormalAdds(img, fd, g.bs, k - 1), NormalAdd(img, fd, g.bs, k - 1);
      NormalAddsContent(g, img, fd, k - 1, o);
      NormalAddContent(g, img, fd, k - 1, o);
      AtConcat(g, init, [b], o);
      AtOne(g, b, o);
    }
  }

  /** The adds of an image are disjoint blocks inside it. */
  lemma NormalAddsDisjoint(g: Geometry, img: seq<byte>, fd: int, k: nat)
    requires g.Valid() && (k > 0 ==> (k - 1) * g.bs < |img|)
    ensures var adds := NormalAdds(img, fd, g.bs, k); PairwiseDisjoint(g, adds) && Inside(g, adds, |img|)
  {
    hide Uniform, WordAt;
    var adds := NormalAdds(img, fd, g.bs, k);
    forall i | 0 <= i < k ensures adds[i].block == i && 0 < adds[i].len <= g.bs && End(g, adds[i]) <= |img| {
      NormalAddsAt(img, fd, g.bs, k, i);
    }
    forall i, j | 0 <= i < j < k ensures Before(g, adds[i], adds[j]) {
      BlockOrder(i, j, g.bs);
    }
  }

  /** The adds of the whole image. */
  function RawAdds(img: seq<byte>, fd: int, bs: nat): seq<Block>
    requires bs >= 4
  {
    var n := DivRoundUp(|img|, bs);
    assert n > 0 ==> (n - 1) * bs == n * bs - bs;
    NormalAdds(img, fd, bs, n)
  }

  /** The list holds exactly the image. */
  ghost predicate HoldsImage(g: Geometry, t: seq<Block>, img: seq<byte>)
  {
    forall o :: At(g, t, o) == if 0 <= o < |img| then Some(img[o]) else None
  }

  /** The list built from a raw image of any size holds exactly the image, when no run of blocks
      of one fill value and no run of other blocks reaches 2^32 bytes. */
  lemma RawImport(g: Geometry, img: seq<byte>, fd: int)
    requires g.Valid() && Backs(g, fd, img) && RunsBelow(g, RawAdds(img, fd, g.bs), B32)
    ensures var adds := RawAdds(img, fd, g.bs);
            var t := EnqueueAll(g.bs, adds);
            StrictlyOrdered(g, t) && Inside(g, t, |img|) && Within(g, t, adds) && HoldsImage(g, t, img)
  {
    hide NormalAdds, EnqueueAll, At, PairwiseDisjoint, Inside, StrictlyOrdered, RunsBelow, Within;
    var n := DivRoundUp(|img|, g.bs);
    assert n > 0 ==> (n - 1) * g.bs == n * g.bs - g.bs;
    var adds := NormalAdds(img, fd, g.bs, n);
    NormalAddsDisjoint(g, img, fd, n);
    RunOfAdds(g, adds, |img|);
    forall o ensures At(g, EnqueueAll(g.bs, adds), o) == if 0 <= o < |img| then Some(img[o]) else None {
      NormalAddsContent(g, img, fd, n, o);
    }
  }

  // ------------------------------------------- exactly when import keeps all

  /** The adds come in order, so none is in front of its predecessors. */
  lemma NoSeams(g: Geometry, img: seq<byte>, fd: int, x: int)
    requires g.Valid()
    ensures !Seam(g, RawAdds(img, fd, g.bs), x)
  {
    hide NormalAdds, Uniform, WordAt;
    var adds, n := RawAdds(img, fd, g.bs), DivRoundUp(|img|, g.bs);
    assert n > 0 ==> (n - 1) * g.bs == n * g.bs - g.bs;
    forall i | 0 <= i < n ensures adds[i].block == i {
      NormalAddsAt(img, fd, g.bs, n, i);
    }
  }

  lemma ShortAdds(g: Geometry, img: seq<byte>, fd: int)
    requires g.Valid()
    ensures forall b :: b in RawAdds(img, fd, g.bs) ==> b.len <= g.bs
  {
    hide NormalAdds, Uniform, WordAt;
    var n := DivRoundUp(|img|, g.bs);
    assert n > 0 ==> (n - 1) * g.bs == n * g.bs - g.bs;
    forall i | 0 <= i < n ensures RawAdds(img, fd, g.bs)[i].len <= g.bs {
      NormalAddsAt(img, fd, g.bs, n, i);
    }
  }

  /** The list built from a raw image holds the image if and only if no run of one fill value and
      no run of other blocks reaches 2^32 bytes. */
  lemma RawImportIff(g: Geometry, img: seq<byte>, fd: int)
    requires g.Valid() && Backs(g, fd, img)
    ensures HoldsImage(g, EnqueueAll(g.bs, RawAdds(img, fd, g.bs)), img) <==> RunsBelow(g, RawAdds(img, fd, g.bs), B32)
  {
    hide NormalAdds, NormalAdd, At, EnqueueAll, PairwiseDisjoint, Inside, StrictlyOrdered, Seam, SameSupply, RunOf;
    var adds, n := RawAdds(img, fd, g.bs), DivRoundUp(|img|, g.bs);
    assert n > 0 ==> (n - 1) * g.bs == n * g.bs - g.bs;
    NormalAddsDisjoint(g, img, fd, n);
    ShortAdds(g, img, fd);
    AddsKeptIff(g, adds, |img|);
    forall x ensures !Seam(g, adds, x) {
      NoSeams(g, img, fd, x);
    }
    assert MergedRunsBelow(g, adds) <==> RunsBelow(g, adds, B32);
    forall o ensures At(g, adds, o) == if 0 <= o < |img| then Some(img[o]) else None {
      NormalAddsContent(g, img, fd, n, o);
    }
  }

  /** An image of 2^32 zeros is not kept. */
  lemma ZeroImageIsLost(st: Storage, fd: int)
    requires forall i :: 0 <= i < B32 ==> st.fd(fd, i) == 0
    ensures var g := Geometry(4096, st);
            !HoldsImage(g, EnqueueAll(4096, RawAdds(Zeros(B32), fd, 4096)), Zeros(B32))
  {
    hide RawAdds, EnqueueAll, HoldsImage;
    var g, img := Geometry(4096, st), Zeros(B32);
    forall o | 0 <= o < B32 ensures Supplies(g, RawAdds(img, fd, 4096), FillSource(0), o) {
      ZeroSupplied(g, fd, o);
    }
    assert RunOf(g, RawAdds(img, fd, 4096), FillSource(0), 0, B32);
    RawImportIff(g, img, fd);
  }

  lemma ZeroSupplied(g: Geometry, fd: int, o: nat)
    requires g.bs == 4096 && o < B32
    ensures Supplies(g, RawAdds(Zeros(B32), fd, 4096), FillSource(0), o)
  {
    hide NormalAdds;
    var img, k := Zeros(B32), o / 4096;
    assert DivRoundUp(B32, 4096) == 0x10_0000;
    NormalAddsAt(img, fd, 4096, 0x10_0000, k);
    assert NormalAdd(img, fd, 4096, k) == Block(k, 4096, Fill(0));
    assert Covers(g, RawAdds(img, fd, 4096)[k], o);
  }

  // ------------------------------------------------------ the normal writers

  /** The bytes of a block, unpadded. */
  function BlockBytes(st: Storage, b: Block): seq<byte>
  {
    seq(b.len, i requires 0 <= i < b.len => ByteAt(st, b.backing, i))
  }

  function FillBytes(val: u32, n: nat): (r: seq<byte>)
    ensures |r| == n
  {
    seq(n, i requires 0 <= i => FillByte(val, i))
  }

  lemma FillPrefix(val: u32, n: nat, m: nat)
    requires m <= n
    ensures FillBytes(val, n)[..m] == FillBytes(val, m)
  {
  }

  lemma FillBytesConcat(val: u32, m: nat, n: nat)
    requires m % 4 == 0
    ensures FillBytes(val, m) + FillBytes(val, n) == FillBytes(val, m + n)
  {
    hide FillByte;
    var a, b, c := FillBytes(val, m), FillBytes(val, n), FillBytes(val, m + n);
    forall i | m <= i < m + n ensures c[i] == b[i - m] {
      FillPeriod(val, m, i - m);
    }
    assert forall i :: 0 <= i < m ==> c[i] == a[i];
  }

  lemma FillPeriod(val: u32, m: nat, j: nat)
    requires m % 4 == 0
    ensures FillByte(val, m + j) == FillByte(val, j)
  {
    assert (m + j) % 4 == j % 4;
  }

  /** What writing `data` at `pos` makes of a file that ends at or before it: the hole in
      between reads as zeros; writing nothing changes nothing. */
  function Written(file: seq<byte>, pos: nat, data: seq<byte>): seq<byte>
    requires |file| <= pos
  {
    if data == [] then file else file + Zeros(pos - |file|) + data
  }

  lemma WrittenTwice(file: seq<byte>, pos: nat, a: seq<byte>, b: seq<byte>)
    requires |file| <= pos
    ensures |Written(file, pos, a)| <= pos + |a|
    ensures Written(Written(file, pos, a), pos + |a|, b) == Written(file, pos, a + b)
  {
    if a == [] {
      assert a + b == b;
    } else {
      assert Zeros(0) == [];
      if b == [] {
        assert a + b == a;
      } else {
        assert Written(file, pos, a) + Zeros(0) + b == file + Zeros(pos - |file|) + (a + b);
      }
    }
  }

  /** Fill bytes written behind whole words of the same fill. */
  lemma WrittenFill(file: seq<byte>, pos: nat, val: u32, done: nat, more: nat)
    requires |file| <= pos && WholeFill(done)
    ensures |Written(file, pos, FillBytes(val, done))| <= pos + done
    ensures Written(Written(file, pos, FillBytes(val, done)), pos + done, FillBytes(val, more))
         == Written(file, pos, FillBytes(val, done + more))
  {
    hide Written;
    WrittenTwice(file, pos, FillBytes(val, done), FillBytes(val, more));
    FillBytesConcat(val, done, more);
  }

  /** Whole words of a fill. */
  ghost predicate WholeFill(n: nat)
  {
    n % 4 == 0
  }

  lemma NothingFilled(file: seq<byte>, pos: nat, val: u32)
    requires |file| <= pos
    ensures WholeFill(0) && Written(file, pos, FillBytes(val, 0)) == file
  {
    assert FillBytes(val, 0) == [];
  }

  lemma WholeWords(x: nat, y: nat)
    requires y % 4 == 0
    ensures WholeFill(x) ==> WholeFill(x + y)
  {
    if x % 4 == 0 {
      SumOfMultiples(x, y, 4);
    }
  }

  /** One more piece of a fill, of at most a block. */
  lemma NextFill(g: Geometry, file: seq<byte>, pos: nat, val: u32, done: nat, left: nat, piece: nat)
    requires g.Valid() && |file| <= pos && WholeFill(done) && piece == if left < g.bs then left else g.bs
    ensures FillBytes(val, g.bs)[..piece] == FillBytes(val, piece) && (left - piece > 0 ==> WholeFill(done + piece))
    ensures |Written(file, pos, FillBytes(val, done))| <= pos + done
    ensures Written(Written(file, pos, FillBytes(val, done)), pos + done, FillBytes(val, piece))
         == Written(file, pos, FillBytes(val, done + piece))
  {
    hide Written, FillBytes, WholeFill;
    FillPrefix(val, g.bs, piece);
    WrittenFill(file, pos, val, done, piece);
    WholeWords(done, g.bs);
  }

  /** A file cut, or extended with zeros, to `len` bytes. */
  function CutTo(file: seq<byte>, len: nat): seq<byte>
  {
    seq(len, o requires 0 <= o => if o < |file| then file[o] else 0)
  }

  /** A raw output file that only grows: contents and write position. */
  class NormalFile {
    const g: Geometry
    var file: seq<byte>
    var pos: nat

    constructor (g: Geometry)
      ensures this.g == g && file == [] && pos == 0
    {
      this.g, file, pos := g, [], 0;
    }

    ghost predicate Valid()
      reads this
    {
      |file| <= pos && g.Valid()
    }

    /** file_write at the current position. */
    method Write(data: seq<byte>)
      requires Valid()
      modifies this
      ensures Valid() && file == Written(old(file), old(pos), data) && pos == old(pos) + |data|
    {
      if |data| > 0 {
        file := file + Zeros(pos - |file|) + data;
      }
      pos := pos + |data|;
    }

    /** file_skip */
    method Skip(n: nat)
      requires Valid()
      modifies this`pos
      ensures Valid() && pos == old(pos) + n
    {
      pos := pos + n;
    }

    /** write_normal_end_chunk: ftruncate to the image length. */
    method End(len: nat)
      requires Valid()
      modifies this`file
      ensures file == CutTo(old(file), len)
    {
      file := if |file| >= len then file[..len] else file + Zeros(len - |file|);
    }

    /** write_normal_data_chunk */
    method WriteDataChunk(b: Block)
      requires Valid()
      modifies this
      ensures Valid() && file == Written(old(file), old(pos), BlockBytes(g.st, b))
      ensures pos == old(pos) + AlignUp(b.len, g.bs)
    {
      var rndUpLen := AlignUp(b.len, g.bs);
      Write(BlockBytes(g.st, b));
      if rndUpLen > b.len {
        Skip(rndUpLen - b.len);
      }
    }

    /** write_normal_fill_chunk: a block-sized buffer of the value, written until `len` bytes
        are out. The position advances by `len`, not by whole blocks. */
    method WriteFillChunk(len: nat, val: u32)
      requires Valid()
      modifies this
      ensures Valid() && file == Written(old(file), old(pos), FillBytes(val, len))
      ensures pos == old(pos) + len
    {
      assert g.bs > 0;
      hide Written, FillBytes, FillByte, WholeFill, Geometry.Valid;
      var fillBuf := FillBytes(val, g.bs);
      var left := len;
      ghost var done := 0;
      NothingFilled(file, pos, val);
      while left > 0
        invariant Valid() && 0 <= left && left + done == len && pos == old(pos) + done
        invariant left > 0 ==> WholeFill(done)
        invariant file == Written(old(file), old(pos), FillBytes(val, done))
      {
        var writeLen := if left < g.bs then left else g.bs;
        NextFill(g, old(file), old(pos), val, done, left, writeLen);
        Write(fillBuf[..writeLen]);
        left, done := left - writeLen, done + writeLen;
      }
    }

    /** sparse_file_write_block in normal mode. */
    method WriteBlock(b: Block)
      requires Valid()
      modifies this
      ensures Valid() && file == Written(old(file), old(pos), BlockBytes(g.st, b))
      ensures pos == old(pos) + if b.backing.Fill? then b.len else AlignUp(b.len, g.bs)
    {
      match b.backing
      case Fill(v) =>
        assert FillBytes(v, b.len) == BlockBytes(g.st, b);
        WriteFillChunk(b.len, v);
      case _ => WriteDataChunk(b);
    }
  }

  // ------------------------------------------- writing a list as a raw image

  /** A byte of the raw image: what the list holds, zero elsewhere. */
  ghost function ImageByte(g: Geometry, s: seq<Block>, o: int): byte
  {
    match At(g, s, o) case None => 0 case Some(b) => b
  }

  ghost predicate RawImageOf(g: Geometry, s: seq<Block>, len: nat, file: seq<byte>)
  {
    |file| == len && forall o :: 0 <= o < len ==> file[o] == ImageByte(g, s, o)
  }

  /** The file holds the blocks written so far, and none of them reaches beyond it. */
  ghost predicate Holds(g: Geometry, s: seq<Block>, file: seq<byte>)
  {
    && (forall o :: 0 <= o < |file| ==> file[o] == ImageByte(g, s, o))
    && (forall o :: o < 0 || o >= |file| ==> At(g, s, o).None?)
  }

  lemma HoldsStep(g: Geometry, s: seq<Block>, b: Block, file: seq<byte>)
    requires Holds(g, s, file) && |file| <= Start(g, b)
    ensures Holds(g, s + [b], Written(file, Start(g, b), BlockBytes(g.st, b)))
  {
    var now := Written(file, Start(g, b), BlockBytes(g.st, b));
    forall o: int
      ensures At(g, s + [b], o) == Or(At(g, s, o), ByteOf(g, b, o))
    {
      AtConcat(g, s, [b], o);
      AtOne(g, b, o);
    }
    forall o | 0 <= o < |now| ensures now[o] == ImageByte(g, s + [b], o) {
      if o >= |file| {
        assert At(g, s, o).None?;
      }
    }
  }

  /** Every fill covers whole blocks. */
  ghost predicate FillsAligned(bs: nat, s: seq<Block>)
    requires bs > 0
  {
    forall i :: 0 <= i < |s| && s[i].backing.Fill? ==> s[i].len == AlignUp(s[i].len, bs)
  }

  /** How far writing b moves the position: whole blocks for data, `len` bytes for a fill. */
  function Advance(bs: nat, b: Block): nat
    requires bs > 0
  {
    if b.backing.Fill? then b.len else AlignUp(b.len, bs)
  }

  /** Bytes skipped in front of b. */
  function SkipTo(bs: nat, last: nat, b: Block): nat
  {
    if b.block > last then MulMonotone(0, b.block - last, bs); (b.block - last) * bs else 0
  }

  datatype Stream = Stream(file: seq<byte>, pos: nat)

  /** The file and the position after the blocks of a list have been written. */
  ghost function Emitted(g: Geometry, s: seq<Block>): (r: Stream)
    requires g.bs > 0
    ensures |r.file| <= r.pos
  {
    if s == [] then Stream([], 0)
    else
      var init, b := s[..|s| - 1], s[|s| - 1];
      var before := Emitted(g, init);
      var at := before.pos + SkipTo(g.bs, LastBlock(g.bs, init), b);
      Stream(Written(before.file, at, BlockBytes(g.st, b)), at + Advance(g.bs, b))
  }

  /** write_all_blocks in normal mode, then the end chunk: the emitted bytes, cut or extended
      with zeros to the image length. */
  method WriteRawImage(list: List, len: nat, out: NormalFile)
    requires list.Chained() && out.g.bs == list.bs && out.g.Valid() && out.file == [] && out.pos == 0
    modifies out
    ensures out.file == CutTo(Emitted(out.g, list.Contents()).file, len)
  {
    hide Linked, Distinct, Values, DivRoundUp, AlignUp, Written, BlockBytes, Emitted;
    ghost var s, k := list.Contents(), 0;
    var lastBlock := 0;
    var bb := list.dataBlocks;
    assert s[..0] == [];
    EmittedNothing(out.g);
    while bb != null
      invariant 0 <= k <= |s| && bb == if k < |s| then list.spine[k] else null
      invariant out.Valid() && lastBlock == LastBlock(list.bs, s[..k])
      invariant Stream(out.file, out.pos) == Emitted(out.g, s[..k])
      decreases |s| - k
    {
      EmittedStep(out.g, s, k);
      if bb.val.block > lastBlock {
        MulMonotone(0, bb.val.block - lastBlock, list.bs);
        out.Skip((bb.val.block - lastBlock) * list.bs);
      }
      out.WriteBlock(bb.val);
      lastBlock := bb.val.block + DivRoundUp(bb.val.len, list.bs);
      list.NextOf(k);
      bb, k := bb.next, k + 1;
    }
    assert s[..k] == s;
    var pad := len - lastBlock * list.bs;
    if pad > 0 {
      out.Skip(pad);
    }
    out.End(len);
  }

  lemma EmittedNothing(g: Geometry)
    requires g.bs > 0
    ensures Emitted(g, []) == Stream([], 0)
  {
  }

  lemma EmittedStep(g: Geometry, s: seq<Block>, k: nat)
    requires g.bs > 0 && k < |s|
    ensures LastBlock(g.bs, s[..k + 1]) == EndBlock(g.bs, s[k])
    ensures var before := Emitted(g, s[..k]);
            var at := before.pos + SkipTo(g.bs, LastBlock(g.bs, s[..k]), s[k]);
            Emitted(g, s[..k + 1]) == Stream(Written(before.file, at, BlockBytes(g.st, s[k])), at + Advance(g.bs, s[k]))
  {
    assert s[..k + 1][..k] == s[..k];
  }

  lemma NoFills(bs: nat)
    requires bs > 0
    ensures FillsAligned(bs, [])
  {
  }

  lemma StackedLast(bs: nat, s: seq<Block>)
    requires bs > 0 && s != [] && Stacked(bs, s)
    ensures LastBlock(bs, s[..|s| - 1]) <= s[|s| - 1].block
  {
  }

  lemma FillsAlignedStep(bs: nat, s: seq<Block>)
    requires bs > 0 && s != []
    ensures var init, b := s[..|s| - 1], s[|s| - 1];
            FillsAligned(bs, s) <==> FillsAligned(bs, init) && (b.backing.Fill? ==> b.len == AlignUp(b.len, bs))
  {
    var init, b := s[..|s| - 1], s[|s| - 1];
    assert forall i :: 0 <= i < |init| ==> init[i] == s[i];
  }

  /** The position is where the next block belongs exactly when all fills cover whole blocks:
      every unaligned fill leaves it short. */
  lemma {:induction false} PositionOnTrackIffFillsAligned(g: Geometry, s: seq<Block>)
    requires g.Valid() && Stacked(g.bs, s)
    ensures Emitted(g, s).pos <= LastBlock(g.bs, s) * g.bs
    ensures Emitted(g, s).pos == LastBlock(g.bs, s) * g.bs <==> FillsAligned(g.bs, s)
  {
    hide DivRoundUp, Written, BlockBytes, AlignUp, FillsAligned, Emitted, Stacked;
    if s == [] {
      EmittedNothing(g);
      NoFills(g.bs);
    } else {
      StackedLast(g.bs, s);
      var k := |s| - 1;
      var init, b := s[..k], s[k];
      assert s[..k + 1] == s;
      StackedInit(g.bs, s);
      PositionOnTrackIffFillsAligned(g, init);
      EmittedStep(g, s, k);
      BlockGap(g.bs, LastBlock(g.bs, init), b);
      FillsAlignedStep(g.bs, s);
    }
  }

  /** The fills before the last block cover whole blocks. */
  ghost predicate FillsAlignedButLast(bs: nat, s: seq<Block>)
    requires bs > 0
  {
    s == [] || FillsAligned(bs, s[..|s| - 1])
  }

  lemma FillsAlignedInit(bs: nat, s: seq<Block>)
    requires bs > 0 && FillsAligned(bs, s)
    ensures FillsAlignedButLast(bs, s)
  {
  }

  /** With aligned fills in front of it every block lands where it belongs. */
  lemma {:induction false} EmittedHolds(g: Geometry, s: seq<Block>)
    requires g.Valid() && Stacked(g.bs, s) && FillsAlignedButLast(g.bs, s)
    ensures Holds(g, s, Emitted(g, s).file)
  {
    hide DivRoundUp, Written, BlockBytes, AlignUp, Holds, Emitted, FillsAligned, Stacked;
    if s == [] {
      EmittedNothing(g);
      HoldsNothing(g);
    } else {
      StackedLast(g.bs, s);
      var k := |s| - 1;
      var init, b := s[..k], s[k];
      assert s[..k + 1] == s && s == init + [b];
      StackedInit(g.bs, s);
      FillsAlignedInit(g.bs, init);
      EmittedHolds(g, init);
      PositionOnTrackIffFillsAligned(g, init);
      EmittedStep(g, s, k);
      BlockGap(g.bs, LastBlock(g.bs, init), b);
      HoldsStep(g, init, b, Emitted(g, init).file);
    }
  }

  /** So the raw file is the image of the list. */
  lemma AlignedFillsGiveImage(g: Geometry, s: seq<Block>, len: nat)
    requires g.Valid() && Stacked(g.bs, s) && FillsAlignedButLast(g.bs, s)
    ensures RawImageOf(g, s, len, CutTo(Emitted(g, s).file, len))
  {
    hide Emitted;
    EmittedHolds(g, s);
  }

  /** An unaligned fill shifts what follows: the byte that belongs at offset 4 is at offset 1. */
  lemma UnalignedFillMisplacesData(st: Storage)
    requires st.mem(0) == 7
    ensures var g := Geometry(4, st);
            var s := [Block(0, 1, Fill(0)), Block(1, 4, Data(0))];
            && StrictlyOrdered(g, s)
            && ImageByte(g, s, 4) == 7 && ImageByte(g, s, 1) == 0
            && |Emitted(g, s).file| == 5 && Emitted(g, s).file[1] == 7
  {
    MisplacedInImage(st);
    MisplacedInFile(st);
  }

  lemma MisplacedInImage(st: Storage)
    requires st.mem(0) == 7
    ensures var g := Geometry(4, st);
            var s := [Block(0, 1, Fill(0)), Block(1, 4, Data(0))];
            StrictlyOrdered(g, s) && ImageByte(g, s, 4) == 7 && ImageByte(g, s, 1) == 0
  {
    var g := Geometry(4, st);
    var a, b := Block(0, 1, Fill(0)), Block(1, 4, Data(0));
    AtConcat(g, [a], [b], 4);
    AtConcat(g, [a], [b], 1);
    assert [a] + [b] == [a, b];
  }

  lemma MisplacedInFile(st: Storage)
    requires st.mem(0) == 7
    ensures var g := Geometry(4, st);
            var s := [Block(0, 1, Fill(0)), Block(1, 4, Data(0))];
            |Emitted(g, s).file| == 5 && Emitted(g, s).file[1] == 7
  {
    hide Emitted;
    var g := Geometry(4, st);
    var a, b := Block(0, 1, Fill(0)), Block(1, 4, Data(0));
    var s := [a, b];
    assert s[..0] == [] && s[..1] == [a] && s[..2] == s;
    EmittedNothing(g);
    EmittedStep(g, s, 0);
    EmittedStep(g, s, 1);
    assert DivRoundUp(1, 4) == 1;
    assert BlockBytes(st, a) == [0] && |BlockBytes(st, b)| == 4 && BlockBytes(st, b)[0] == 7;
  }

  lemma BlockGap(bs: nat, last: nat, b: Block)
    requires bs > 0 && last <= b.block
    ensures 0 <= (b.block - last) * bs == b.block * bs - last * bs
    ensures (b.block + DivRoundUp(b.len, bs)) * bs == b.block * bs + AlignUp(b.len, bs)
  {
    MulMonotone(0, b.block - last, bs);
  }

  lemma HoldsNothing(g: Geometry)
    ensures Holds(g, [], [])
  {
  }

  // -------------------------------------------------- raw -> sparse -> raw

  /** Every block covers whole blocks of the image. */
  ghost predicate Whole(bs: nat, s: seq<Block>)
    requires bs > 0
  {
    forall i :: 0 <= i < |s| ==> s[i].len % bs == 0
  }

  lemma SumOfMultiples(x: nat, y: nat, bs: nat)
    requires bs > 0 && x % bs == 0 && y % bs == 0
    ensures (x + y) % bs == 0
  {
    assert x + y == (x / bs + y / bs) * bs;
    QuotientOfMultiple(x / bs + y / bs, bs);
  }

  lemma CoalesceWhole(g: Geometry, t: seq<Block>, i: nat, all: seq<Block>)
    requires g.Valid() && StrictlyOrdered(g, t) && Within(g, t, all) && RunsBelow(g, all, B32) && Whole(g.bs, t)
    ensures Whole(g.bs, Coalesce(g.bs, t, i))
  {
    hide Within, RunsBelow;
    if i + 1 < |t| && Merge(g.bs, t[i], t[i + 1]).Some? {
      MergeFits(g, t[i], t[i + 1], t, all);
      SumOfMultiples(t[i].len, t[i + 1].len, g.bs);
      assert Merge(g.bs, t[i], t[i + 1]).value.len == t[i].len + t[i + 1].len;
    }
  }

  lemma EnqueueWhole(g: Geometry, s: seq<Block>, b: Block, size: nat, all: seq<Block>)
    requires g.Valid() && StrictlyOrdered(g, s) && Inside(g, s + [b], size) && Unused(g, s, b)
    requires Within(g, s + [b], all) && RunsBelow(g, all, B32) && Whole(g.bs, s) && b.len % g.bs == 0
    ensures Whole(g.bs, Enqueue(g.bs, s, b))
  {
    hide StrictlyOrdered, Inside, Unused, Coalesce, Within, RunsBelow;
    if s != [] && s[0].block <= b.block {
      var p := InsertPosition(g, s, b, size);
      var t := InsertAt(s, b, p);
      InsertKeepsOrder(g, s, b, p, size);
      InsertWithin(g, s, b, p, all);
      CoalesceKeeps(g, t, p, size, all);
      CoalesceWhole(g, t, p, all);
      CoalesceWhole(g, Coalesce(g.bs, t, p), p - 1, all);
    }
  }

  lemma {:induction false} EnqueueAllWhole(g: Geometry, adds: seq<Block>, size: nat, all: seq<Block>)
    requires g.Valid() && PairwiseDisjoint(g, adds) && Inside(g, adds, size) && Whole(g.bs, adds)
    requires Within(g, adds, all) && RunsBelow(g, all, B32)
    ensures Whole(g.bs, EnqueueAll(g.bs, adds))
  {
    hide Within, RunsBelow, Enqueue, StrictlyOrdered, Inside, PairwiseDisjoint, Unused;
    if adds != [] {
      var k := |adds| - 1;
      var init, b := adds[..k], adds[k];
      InitAdds(g, adds, size);
      WithinInit(g, adds, all);
      AddsWithin(g, init, size, all);
      var s := EnqueueAll(g.bs, init);
      UnusedFromContent(g, init, s, b, size);
      InsideNext(g, s, adds, size);
      WithinNext(g, s, adds, all);
      EnqueueAllWhole(g, init, size, all);
      EnqueueWhole(g, s, b, size, all);
    }
  }

  lemma WholeIsAligned(len: nat, bs: nat)
    requires bs > 0 && len % bs == 0
    ensures AlignUp(len, bs) == len
  {
    WholeBlocks(bs, len);
  }

  lemma {:induction false} WholeNeedsNoPadding(g: Geometry, s: seq<Block>, o: int)
    requires g.Valid() && Whole(g.bs, s)
    ensures PaddedAt(g, s, o) == At(g, s, o)
  {
    if s != [] {
      WholeIsAligned(s[0].len, g.bs);
      WholeNeedsNoPadding(g, s[1..], o);
    }
  }

  lemma RawAddsWhole(img: seq<byte>, fd: int, bs: nat)
    requires bs >= 4 && |img| % bs == 0
    ensures Whole(bs, RawAdds(img, fd, bs))
  {
    hide Uniform, WordAt;
    var n := |img| / bs;
    WholeBlocks(bs, |img|);
    assert n * bs == |img|;
    if n > 0 {
      assert (n - 1) * bs == n * bs - bs;
    }
    QuotientOfMultiple(1, bs);
    forall i | 0 <= i < n ensures NormalAdds(img, fd, bs, n)[i].len % bs == 0 {
      NormalAddsAt(img, fd, bs, n, i);
      BlockOrder(i, n, bs);
    }
  }

  /** Every run fits the format: a fill 32 bits, data together with a chunk header. */
  ghost predicate RunsFit(g: Geometry, s: seq<Block>)
  {
    forall src, lo, hi :: RunOf(g, s, src, lo, hi) ==> hi - lo + (if src.FillSource? then 0 else CHUNK_HEADER_LEN) < B32
  }

  lemma RunsFitBelow(g: Geometry, s: seq<Block>)
    requires RunsFit(g, s)
    ensures RunsBelow(g, s, B32)
  {
  }

  /** The list of a raw image of whole blocks. */
  ghost function Imported(img: seq<byte>, fd: int, bs: nat): seq<Block>
    requires bs >= 4
  {
    EnqueueAll(bs, RawAdds(img, fd, bs))
  }

  lemma ImportedFacts(g: Geometry, img: seq<byte>, fd: int)
    requires g.Valid() && Backs(g, fd, img) && |img| % g.bs == 0 && RunsBelow(g, RawAdds(img, fd, g.bs), B32)
    ensures var t := Imported(img, fd, g.bs);
            && StrictlyOrdered(g, t) && Inside(g, t, |img|) && Whole(g.bs, t)
            && Within(g, t, RawAdds(img, fd, g.bs)) && HoldsImage(g, t, img)
  {
    hide NormalAdds, EnqueueAll, At, PairwiseDisjoint, Inside, StrictlyOrdered, Whole, RunsBelow, Within;
    RawAddsWhole(img, fd, g.bs);
    RawImport(g, img, fd);
    var n := DivRoundUp(|img|, g.bs);
    assert n > 0 ==> (n - 1) * g.bs == n * g.bs - g.bs;
    NormalAddsDisjoint(g, img, fd, n);
    WithinSelf(g, RawAdds(img, fd, g.bs));
    EnqueueAllWhole(g, RawAdds(img, fd, g.bs), |img|, RawAdds(img, fd, g.bs));
  }

  /** No block of the imported list came from memory. */
  ghost predicate NoData(s: seq<Block>)
  {
    forall i :: 0 <= i < |s| ==> !s[i].backing.Data?
  }

  /** The chunks of the imported list fit, and padding adds nothing to its fills. */
  lemma ImportedFits(g: Geometry, t: seq<Block>, adds: seq<Block>, size: nat)
    requires g.Valid() && Inside(g, t, size) && Whole(g.bs, t) && NoData(t)
    requires Within(g, t, adds) && RunsFit(g, adds)
    ensures ChunksFit(g.bs, t) && RunsBelow(g, PaddedFills(g, t), B32)
  {
    forall i | 0 <= i < |t| ensures t[i].len == AlignUp(t[i].len, g.bs) && ChunkFits(g.bs, t[i]) {
      WholeIsAligned(t[i].len, g.bs);
      hide AlignUp, DivRoundUp;
      BlockRun(g, t, adds, i);
    }
    hide AlignUp, DivRoundUp;
    var fills := PaddedFills(g, t);
    forall src, o | Supplies(g, fills, src, o) ensures Supplies(g, t, src, o) {
      var i :| 0 <= i < |fills| && SourceOf(g, fills[i]) == Some(src) && Covers(g, fills[i], o);
      assert SourceOf(g, t[i]) == Some(src) && Covers(g, t[i], o);
    }
    WithinTrans(g, fills, t, adds);
    RunsFitBelow(g, adds);
    RunsBelowWithin(g, fills, adds, B32);
  }

  lemma BlockRun(g: Geometry, t: seq<Block>, adds: seq<Block>, i: nat)
    requires Within(g, t, adds) && RunsFit(g, adds) && i < |t| && t[i].len > 0 && !t[i].backing.Data?
    ensures t[i].len + (if t[i].backing.Fill? then 0 else CHUNK_HEADER_LEN) < B32
  {
    var src := SourceOf(g, t[i]).value;
    forall o | Start(g, t[i]) <= o < End(g, t[i]) ensures Supplies(g, adds, src, o) {
      assert Supplies(g, t, src, o);
    }
    assert RunOf(g, adds, src, Start(g, t[i]), End(g, t[i]));
  }

  lemma EnqueueNoData(bs: nat, s: seq<Block>, b: Block)
    requires bs > 0 && NoData(s) && !b.backing.Data?
    ensures NoData(Enqueue(bs, s, b))
  {
    if s != [] && s[0].block <= b.block {
      var p := Position(s, b.block, 1);
      var t := InsertAt(s, b, p);
      assert NoData(t);
      CoalesceNoData(bs, t, p);
      CoalesceNoData(bs, Coalesce(bs, t, p), p - 1);
    }
  }

  lemma CoalesceNoData(bs: nat, t: seq<Block>, i: nat)
    requires bs > 0 && NoData(t)
    ensures NoData(Coalesce(bs, t, i))
  {
  }

  lemma {:induction false} EnqueueAllNoData(bs: nat, adds: seq<Block>)
    requires bs > 0 && NoData(adds)
    ensures NoData(EnqueueAll(bs, adds))
  {
    hide Enqueue;
    if adds != [] {
      EnqueueAllNoData(bs, adds[..|adds| - 1]);
      EnqueueNoData(bs, EnqueueAll(bs, adds[..|adds| - 1]), adds[|adds| - 1]);
    }
  }

  lemma {:induction false} NormalAddsNoData(img: seq<byte>, fd: int, bs: nat, k: nat)
    requires bs >= 4 && (k > 0 ==> (k - 1) * bs < |img|)
    ensures NoData(NormalAdds(img, fd, bs, k))
  {
    hide Uniform, WordAt;
    if k > 0 {
      MulMonotone(k - 2, k - 1, bs);
      NormalAddsNoData(img, fd, bs, k - 1);
    }
  }

  lemma ImportedNoData(img: seq<byte>, fd: int, bs: nat)
    requires bs >= 4
    ensures NoData(Imported(img, fd, bs))
  {
    var n := DivRoundUp(|img|, bs);
    assert n > 0 ==> (n - 1) * bs == n * bs - bs;
    NormalAddsNoData(img, fd, bs, n);
    EnqueueAllNoData(bs, RawAdds(img, fd, bs));
  }

  lemma MirrorsWhole(g: Geometry, buf: seq<byte>, fd: int, s: seq<Block>, adds: seq<Block>)
    requires g.Valid() && AllMirror(g, buf, fd, s, adds)
    ensures Whole(g.bs, adds)
  {
    forall i | 0 <= i < |adds| ensures adds[i].len % g.bs == 0 {
      assert Mirrors(g, buf, fd, s[i], adds[i]);
      QuotientOfMultiple(DivRoundUp(s[i].len, g.bs), g.bs);
    }
  }

  lemma WholeFills(bs: nat, s: seq<Block>)
    requires bs > 0 && Whole(bs, s)
    ensures FillsAligned(bs, s)
  {
    forall i | 0 <= i < |s| ensures s[i].len == AlignUp(s[i].len, bs) {
      WholeIsAligned(s[i].len, bs);
    }
  }

  /** Raw to sparse to raw is the identity, for every image of whole blocks, fewer than 2^31 of
      them, whose runs fit the format: import with fill detection and merging, sparse writing,
      sparse import, which takes block size and length from the file, and raw writing reproduce
      the image. */
  lemma RawSparseRaw(g: Geometry, img: seq<byte>, fd: int, fd': int)
    requires g.Valid() && Backs(g, fd, img) && RunsFit(g, RawAdds(img, fd, g.bs))
    requires |img| % g.bs == 0 && |img| / g.bs < 0x8000_0000
    ensures var buf := SparseBytes(g, |img|, Imported(img, fd, g.bs));
            var r := ImportOf(buf, fd');
            && r.NewFile? && r.bs == g.bs && r.len == |img|
            && var h, u := Through(g, buf, fd'), EnqueueAll(r.bs, r.adds);
            && StrictlyOrdered(h, u)
            && CutTo(Emitted(h, u).file, r.len) == img
  {
    hide StrictlyOrdered, Inside, At, PaddedAt, EnqueueAll, Mirrors, AllMirror, Imported, Whole, FillsAligned, PairwiseDisjoint, SparseBytes,
         ImportOf, Emitted, Stacked, RunsFit, RunsBelow, RawAdds, Within, ChunksFit, InsideButLast;
    var t := Imported(img, fd, g.bs);
    RunsFitBelow(g, RawAdds(img, fd, g.bs));
    ImportedFacts(g, img, fd);
    ImportedNoData(img, fd, g.bs);
    ImportedFits(g, t, RawAdds(img, fd, g.bs), |img|);
    InsideToButLast(g, t, |img|);
    SparseRoundTrip(g, t, |img|, fd');
    var buf := SparseBytes(g, |img|, t);
    var r := ImportOf(buf, fd');
    var h, u := Through(g, buf, fd'), EnqueueAll(g.bs, r.adds);
    ReadWhole(g, t, buf, fd', r.adds, |img|);
    WholeFills(g.bs, u);
    FillsAlignedInit(g.bs, u);
    forall o | 0 <= o < |img| ensures img[o] == ImageByte(h, u, o) {
      WholeNeedsNoPadding(g, t, o);
    }
    StrictIsStacked(h, u);
    AlignedFillsGiveImage(h, u, |img|);
  }

  lemma InsideToButLast(g: Geometry, s: seq<Block>, len: nat)
    requires Inside(g, s, len)
    ensures InsideButLast(g, s, len)
  {
  }

  lemma ReadWhole(g: Geometry, s: seq<Block>, buf: seq<byte>, fd: int, adds: seq<Block>, len: nat)
    requires g.Valid() && StrictlyOrdered(g, s) && Inside(g, s, len) && len % g.bs == 0
    requires AllMirror(g, buf, fd, s, adds) && RunsBelow(Through(g, buf, fd), adds, B32)
    ensures Whole(g.bs, EnqueueAll(g.bs, adds))
  {
    hide StrictlyOrdered, Inside, AllMirror, RunsBelow, PairwiseDisjoint, EnqueueAll, Whole, Within;
    MirrorsWhole(g, buf, fd, s, adds);
    MirrorsDisjoint(g, s, buf, fd, adds, len);
    WithinSelf(Through(g, buf, fd), adds);
    EnqueueAllWhole(Through(g, buf, fd), adds, len, adds);
  }

  lemma StrictIsStacked(g: Geometry, s: seq<Block>)
    requires g.Valid() && StrictlyOrdered(g, s)
    ensures Stacked(g.bs, s)
  {
    OrderedIsStacked(g, s);
  }
}
