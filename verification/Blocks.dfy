/** Backed blocks as values: what a block and a list of blocks put into an image, and the
    merge, split and ordered-insertion rules of backed_block.cpp on lists of values. */
module Blocks {
  import opened Words

  // ------------------------------------------------- rounding (sparse_defs.h)

  /** DIV_ROUND_UP */
  function DivRoundUp(x: nat, bs: nat): (r: nat)
    requires bs > 0
    ensures x <= r * bs < x + bs
  {
    var r := (x + bs - 1) / bs;
    assert r * bs == x + bs - 1 - (x + bs - 1) % bs;
    MulMonotone(0, r, bs);
    r
  }

  /** ALIGN */
  function AlignUp(x: nat, bs: nat): (r: nat)
    requires bs > 0
    ensures x <= r < x + bs && r == DivRoundUp(x, bs) * bs
  {
    bs * DivRoundUp(x, bs)
  }

  /** ALIGN_DOWN */
  function AlignDown(x: nat, bs: nat): (r: nat)
    requires bs > 0
    ensures r <= x < r + bs && r == (x / bs) * bs && r / bs == x / bs
  {
    assert (x / bs) * bs == x - x % bs;
    QuotientOfMultiple(x / bs, bs);
    bs * (x / bs)
  }

  lemma QuotientOfMultiple(q: nat, bs: nat)
    requires bs > 0
    ensures (q * bs) / bs == q && (q * bs) % bs == 0
  {
    var d, m := (q * bs) / bs, (q * bs) % bs;
    assert q * bs == d * bs + m;
    assert (q - d) * bs == m;
    if q > d {
      MulMonotone(1, q - d, bs);
    } else if q < d {
      MulMonotone(q - d, -1, bs);
    }
  }

  /** Multiples of the block size inherit its divisibility by the fill word size. */
  lemma MultipleOfFour(q: nat, bs: nat)
    requires bs % 4 == 0
    ensures (q * bs) % 4 == 0
  {
    var k := bs / 4;
    assert q * bs == 4 * (q * k);
  }

  /** Strictly ordered block numbers are at least one block apart. */
  lemma BlockOrder(x: int, y: int, bs: nat)
    requires bs > 0
    ensures x < y ==> x * bs + bs <= y * bs
    ensures x <= y ==> x * bs <= y * bs
  {
    if x < y {
      MulMonotone(x + 1, y, bs);
      assert (x + 1) * bs == x * bs + bs;
    }
  }

  // ------------------------------------------------------- blocks and content

  /** Where the bytes of a block come from. */
  datatype Backing =
    | Data(addr: int)
    | File(name: string, offset: int)
    | Fd(fd: int, offset: int)
    | Fill(val: u32)
  {
    /** The same source, d bytes further on. */
    function Advance(d: int): Backing
    {
      match this
      case Data(a) => Data(a + d)
      case File(f, o) => File(f, o + d)
      case Fd(f, o) => Fd(f, o + d)
      case Fill(v) => this
    }
  }

  datatype Block = Block(block: nat, len: nat, backing: Backing)

  /** Memory, files and descriptors: constant while a sparse file refers to them. */
  datatype Storage = Storage(mem: int -> byte, file: (string, int) -> byte, fd: (int, int) -> byte)

  /** Byte i of a repeated 32-bit value in host (little-endian) order. */
  function FillByte(val: u32, i: nat): byte
  {
    if i % 4 == 0 then val % 0x100
    else if i % 4 == 1 then val / 0x100 % 0x100
    else if i % 4 == 2 then val / 0x1_0000 % 0x100
    else val / 0x100_0000
  }

  function ByteAt(st: Storage, src: Backing, i: nat): byte
  {
    match src
    case Data(a) => st.mem(a + i)
    case File(f, o) => st.file(f, o + i)
    case Fd(f, o) => st.fd(f, o + i)
    case Fill(v) => FillByte(v, i)
  }

  lemma ByteAtAdvance(st: Storage, src: Backing, d: nat, i: nat)
    requires src.Fill? ==> d % 4 == 0
    ensures ByteAt(st, src.Advance(d), i) == ByteAt(st, src, d + i)
  {
  }

  /** The parameters every list of one image shares. */
  datatype Geometry = Geometry(bs: nat, st: Storage)
  {
    /** The block size is an unsigned int and a positive multiple of the fill word. */
    predicate Valid() { 0 < bs < B32 && bs % 4 == 0 }
  }

  ghost function Start(g: Geometry, b: Block): nat
  {
    MulMonotone(0, b.block, g.bs);
    b.block * g.bs
  }

  ghost function End(g: Geometry, b: Block): nat { Start(g, b) + b.len }

  /** Union of two partial maps at one offset. */
  ghost function Or(x: Option<byte>, y: Option<byte>): Option<byte>
  {
    if x.Some? then x else y
  }

  ghost predicate Covers(g: Geometry, b: Block, o: int)
  {
    Start(g, b) <= o < End(g, b)
  }

  /** What one block puts into the image: a partial map from byte offset to byte. */
  ghost function ByteOf(g: Geometry, b: Block, o: int): Option<byte>
  {
    if Covers(g, b, o) then Some(ByteAt(g.st, b.backing, o - Start(g, b))) else None
  }

  /** The content of a list of blocks: a partial map from byte offset to byte. */
  ghost function At(g: Geometry, s: seq<Block>, o: int): Option<byte>
  {
    if s == [] then None else Or(ByteOf(g, s[0], o), At(g, s[1..], o))
  }

  lemma {:induction false} AtConcat(g: Geometry, s: seq<Block>, t: seq<Block>, o: int)
    ensures At(g, s + t, o) == Or(At(g, s, o), At(g, t, o))
  {
    if s == [] {
      assert s + t == t;
    } else {
      assert (s + t)[1..] == s[1..] + t;
      AtConcat(g, s[1..], t, o);
    }
  }

  lemma AtOne(g: Geometry, b: Block, o: int)
    ensures At(g, [b], o) == ByteOf(g, b, o)
  {
  }

  ghost predicate Before(g: Geometry, a: Block, b: Block)
  {
    End(g, a) <= Start(g, b)
  }

  /** Sorted and non-overlapping; empty pieces may share a block number. */
  ghost predicate Ordered(g: Geometry, s: seq<Block>)
  {
    forall i, j :: 0 <= i < j < |s| ==> s[i].block <= s[j].block && Before(g, s[i], s[j])
  }

  /** Block numbers strictly increase as well. */
  ghost predicate StrictlyOrdered(g: Geometry, s: seq<Block>)
  {
    forall i, j :: 0 <= i < j < |s| ==> s[i].block < s[j].block && Before(g, s[i], s[j])
  }

  /** Every block is non-empty and ends inside an image of `size` bytes. */
  ghost predicate Inside(g: Geometry, s: seq<Block>, size: nat)
  {
    forall i :: 0 <= i < |s| ==> s[i].len > 0 && End(g, s[i]) <= size
  }

  /** An offset is in the content exactly when some block covers it, and in an ordered list
      that block alone supplies the byte. */
  lemma {:induction false} AtWitness(g: Geometry, s: seq<Block>, o: int, i: nat)
    requires Ordered(g, s) && i < |s| && Covers(g, s[i], o)
    ensures At(g, s, o) == ByteOf(g, s[i], o)
  {
    if i > 0 {
      assert Before(g, s[0], s[i]);
      assert s[1..][i - 1] == s[i];
      AtWitness(g, s[1..], o, i - 1);
    }
  }

  lemma {:induction false} AtNone(g: Geometry, s: seq<Block>, o: int)
    requires forall i :: 0 <= i < |s| ==> !Covers(g, s[i], o)
    ensures At(g, s, o) == None
  {
    if s != [] {
      AtNone(g, s[1..], o);
    }
  }

  // ------------------------------------------------------------------- merge

  /** merge_bb: the adjacency test rounds the length down; the new length is unsigned 32-bit. */
  function Merge(bs: nat, a: Block, b: Block): Option<Block>
    requires bs > 0
  {
    if a.block + a.len / bs != b.block then None
    else
      var merged := Block(a.block, (a.len + b.len) % B32, a.backing);
      match (a.backing, b.backing)
      case (Fill(v), Fill(w)) => if v == w then Some(merged) else None
      case (File(f, o), File(f', o')) => if f == f' && o + a.len == o' then Some(merged) else None
      case (Fd(f, o), Fd(f', o')) => if f == f' && o + a.len == o' then Some(merged) else None
      case _ => None
  }

  /** Rounding down is harmless: two blocks that do not overlap only pass the adjacency
      test when the first is block aligned, so they touch and their sources continue. */
  lemma MergeTouches(g: Geometry, a: Block, b: Block)
    requires g.Valid() && Before(g, a, b) && Merge(g.bs, a, b).Some?
    ensures End(g, a) == Start(g, b)
    ensures a.len == AlignDown(a.len, g.bs)
    ensures b.backing == a.backing.Advance(a.len)
    ensures a.backing.Fill? ==> a.len % 4 == 0
  {
    var q := a.len / g.bs;
    var low := AlignDown(a.len, g.bs);
    assert (a.block + q) * g.bs == a.block * g.bs + q * g.bs;
    MultipleOfFour(q, g.bs);
  }

  lemma MergedValue(bs: nat, a: Block, b: Block)
    requires bs > 0 && Merge(bs, a, b).Some?
    ensures Merge(bs, a, b).value == Block(a.block, (a.len + b.len) % B32, a.backing)
  {
  }

  /** A merge that fits the 32-bit length field keeps every byte... */
  lemma MergeContent(g: Geometry, a: Block, b: Block, o: int)
    requires g.Valid() && Before(g, a, b) && Merge(g.bs, a, b).Some?
    requires a.len + b.len < B32
    ensures ByteOf(g, Merge(g.bs, a, b).value, o) == Or(ByteOf(g, a, o), ByteOf(g, b, o))
  {
    MergeTouches(g, a, b);
    MergedValue(g.bs, a, b);
    hide Merge, ByteAt, AlignDown, ByteOf;
    JoinContent(g, a, b, Merge(g.bs, a, b).value, o);
  }

  lemma JoinContent(g: Geometry, a: Block, b: Block, m: Block, o: int)
    requires m == Block(a.block, a.len + b.len, a.backing) && b.backing == a.backing.Advance(a.len)
    requires End(g, a) == Start(g, b) && (a.backing.Fill? ==> a.len % 4 == 0)
    ensures ByteOf(g, m, o) == Or(ByteOf(g, a, o), ByteOf(g, b, o))
  {
    assert Start(g, m) == Start(g, a);
    hide ByteAt, Start;
    if Covers(g, b, o) {
      ByteAtAdvance(g.st, a.backing, a.len, o - Start(g, b));
    }
  }

  /** ... and one that does not fit loses the last byte. */
  lemma MergeOverflow(g: Geometry, a: Block, b: Block)
    requires g.Valid() && Before(g, a, b) && Merge(g.bs, a, b).Some?
    requires a.len + b.len >= B32 && b.len > 0
    ensures var o := End(g, b) - 1;
            ByteOf(g, Merge(g.bs, a, b).value, o).None? && ByteOf(g, b, o).Some?
  {
    MergeTouches(g, a, b);
  }

  // ------------------------------------------------------------------- split

  /** backed_block_split: the first piece and, when the block is longer, the rest. */
  function Split(bs: nat, b: Block, maxLen: nat): (Block, Option<Block>)
    requires bs > 0
  {
    var p := AlignDown(maxLen, bs);
    if b.len <= p then (b, None)
    else (Block(b.block, p, b.backing), Some(Block(b.block + p / bs, b.len - p, b.backing.Advance(p))))
  }

  /** The blocks that replace the original in its list. */
  function Pieces(bs: nat, b: Block, maxLen: nat): seq<Block>
    requires bs > 0
  {
    var (first, rest) := Split(bs, b, maxLen);
    [first] + match rest { case None => [] case Some(r) => [r] }
  }

  lemma SplitFacts(g: Geometry, b: Block, maxLen: nat)
    requires g.Valid()
    ensures var (first, rest) := Split(g.bs, b, maxLen);
            && first.block == b.block && first.len <= b.len
            && (first.len <= maxLen || rest.None?)
            && (rest.Some? ==>
                  && End(g, first) == Start(g, rest.value)
                  && End(g, rest.value) == End(g, b)
                  && b.block <= rest.value.block
                  && first.len + rest.value.len == b.len
                  && rest.value.len > 0)
            && (rest.None? ==> first == b)
  {
    var p := AlignDown(maxLen, g.bs);
    assert (b.block + p / g.bs) * g.bs == b.block * g.bs + (p / g.bs) * g.bs;
  }

  /** A split changes no byte. */
  lemma SplitContent(g: Geometry, b: Block, maxLen: nat, o: int)
    requires g.Valid()
    ensures At(g, Pieces(g.bs, b, maxLen), o) == ByteOf(g, b, o)
  {
    var (first, rest) := Split(g.bs, b, maxLen);
    AtOne(g, first, o);
    if rest.Some? {
      var r := rest.value;
      SplitFacts(g, b, maxLen);
      AtConcat(g, [first], [r], o);
      AtOne(g, r, o);
      MultipleOfFour(maxLen / g.bs, g.bs);
      if Covers(g, r, o) {
        ByteAtAdvance(g.st, b.backing, first.len, o - Start(g, r));
      }
    }
  }
}
