/** The streaming structure of avb_sha256.c and avb_sha512.c: a context that collects input
    in a block buffer, compresses whole blocks, and pads at the end. Both files have this
    structure with different sizes; the block compression function is a parameter. */
module Sha {
  import opened Words

  /** The parameters of one hash: block size, size of the length field of the padding, the
      initial state, the compression of one block and the serialization of the state. */
  datatype Algorithm<!H> = Algorithm(bs: nat, lengthField: nat, iv: H, compress: (H, seq<byte>) -> H, output: H -> seq<byte>)
  {
    /** SHA-256 has 64-byte blocks and an 8-byte length, SHA-512 128 and 16. */
    predicate Valid()
    {
      (bs == 64 && lengthField == 8) || (bs == 128 && lengthField == 16)
    }
  }

  /** x is a whole number of blocks of one of the two sizes. */
  ghost predicate Whole(bs: nat, x: int)
  {
    (bs == 64 && x % 64 == 0) || (bs == 128 && x % 128 == 0)
  }

  lemma WholeTimes(bs: nat, k: nat)
    requires bs == 64 || bs == 128
    ensures Whole(bs, k * bs)
  {
    if bs == 64 {
      assert k * bs == 64 * k;
    } else {
      assert k * bs == 128 * k;
    }
  }

  // ------------------------------------------------------------ one-shot hash

  /** The state after compressing all whole blocks of m. */
  ghost function Compress<H>(alg: Algorithm<H>, h: H, m: seq<byte>): H
    requires alg.Valid()
    decreases |m|
  {
    if |m| < alg.bs then h else Compress(alg, alg.compress(h, m[..alg.bs]), m[alg.bs..])
  }

  lemma {:induction false} CompressConcat<H>(alg: Algorithm<H>, h: H, a: seq<byte>, b: seq<byte>)
    requires alg.Valid() && Whole(alg.bs, |a|)
    ensures Compress(alg, h, a + b) == Compress(alg, Compress(alg, h, a), b)
    decreases |a|
  {
    hide Compress, Whole;
    WholeLess(alg.bs, |a|);
    if a == [] {
      assert a + b == b;
      CompressRest(alg, h, a);
    } else {
      assert (a + b)[..alg.bs] == a[..alg.bs] && (a + b)[alg.bs..] == a[alg.bs..] + b;
      CompressConcat(alg, alg.compress(h, a[..alg.bs]), a[alg.bs..], b);
      CompressFirst(alg, h, a);
      CompressFirst(alg, h, a + b);
    }
  }

  lemma CompressFirst<H>(alg: Algorithm<H>, h: H, m: seq<byte>)
    requires alg.Valid() && |m| >= alg.bs
    ensures Compress(alg, h, m) == Compress(alg, alg.compress(h, m[..alg.bs]), m[alg.bs..])
  {
  }

  lemma CompressRest<H>(alg: Algorithm<H>, h: H, m: seq<byte>)
    requires alg.Valid() && |m| < alg.bs
    ensures Compress(alg, h, m) == h
  {
  }

  /** Whole blocks but none are at least one block, and whole blocks without it. */
  lemma WholeLess(bs: nat, n: nat)
    requires (bs == 64 || bs == 128) && Whole(bs, n)
    ensures n > 0 ==> n >= bs && Whole(bs, n - bs)
  {
  }

  /** The smallest number of zero bytes after the 0x80 byte that makes message, marker, zeros
      and length field fill whole blocks. */
  function PadZeros(bs: nat, lengthField: nat, n: nat): (k: nat)
    requires (bs == 64 && lengthField == 8) || (bs == 128 && lengthField == 16)
    ensures k < bs && Whole(bs, n + 1 + k + lengthField)
  {
    if bs == 64 then
      var r := n % 64;
      var k := if r < 56 then 55 - r else 119 - r;
      Multiple64(n / 64 + if r < 56 then 1 else 2, n + 1 + k + lengthField);
      k
    else
      var r := n % 128;
      var k := if r < 112 then 111 - r else 239 - r;
      Multiple128(n / 128 + if r < 112 then 1 else 2, n + 1 + k + lengthField);
      k
  }

  lemma Multiple64(q: int, x: int)
    requires x == 64 * q
    ensures x % 64 == 0
  {
  }

  lemma Multiple128(q: int, x: int)
    requires x == 128 * q
    ensures x % 128 == 0
  {
  }

  lemma PadZerosLeast(bs: nat, lengthField: nat, n: nat, k: nat)
    requires (bs == 64 && lengthField == 8) || (bs == 128 && lengthField == 16)
    requires Whole(bs, n + 1 + k + lengthField)
    ensures PadZeros(bs, lengthField, n) <= k
  {
    if bs == 64 {
      var q, r, t := n / 64, n % 64, (n + 1 + k + lengthField) / 64;
      assert 64 * q + r + 9 + k == 64 * t;
      assert t > q && (r >= 56 ==> t > q + 1);
    } else {
      var q, r, t := n / 128, n % 128, (n + 1 + k + lengthField) / 128;
      assert 128 * q + r + 17 + k == 128 * t;
      assert t > q && (r >= 112 ==> t > q + 1);
    }
  }

  /** Sections 5.1.1 and 5.1.2 of FIPS 180-2: a one bit, zeros, the length in bits. */
  ghost function Pad<H>(alg: Algorithm<H>, m: seq<byte>): seq<byte>
    requires alg.Valid()
  {
    m + [0x80] + Zeros(PadZeros(alg.bs, alg.lengthField, |m|)) + BigEndianBytes(8 * |m|, alg.lengthField)
  }

  /** What the standard demands of the padded message: whole blocks, the message, a one bit, fewer
      than a block of zeros, and the message length in bits in the last bytes. */
  lemma PadIsStandard<H>(alg: Algorithm<H>, m: seq<byte>)
    requires alg.Valid() && 8 * |m| < Pow(B8, alg.lengthField)
    ensures var p, n := Pad(alg, m), alg.lengthField;
            && Whole(alg.bs, |p|) && m < p && p[|m|] == 0x80 && |m| + 1 + n <= |p| < |m| + 1 + n + alg.bs
            && (forall i :: |m| < i < |p| - n ==> p[i] == 0) && BigEndian(p[|p| - n..]) == 8 * |m|
  {
    hide BigEndianBytes, BigEndian;
    var p, k, bits := Pad(alg, m), PadZeros(alg.bs, alg.lengthField, |m|), BigEndianBytes(8 * |m|, alg.lengthField);
    assert p[|p| - alg.lengthField..] == bits;
    BigEndianOfBytes(8 * |m|, alg.lengthField);
  }

  /** A cleared buffer with the marker. */
  lemma Marked(cleared: seq<byte>, marked: seq<byte>, front: seq<byte>, end: nat)
    requires |front| + 9 <= end <= |cleared| && cleared[..|front|] == front && cleared[|front|..end] == Zeros(end - |front|)
    requires marked == cleared[|front| := 0x80]
    ensures marked[..end - 8] == front + [0x80] + Zeros(end - |front| - 9)
  {
    var n := |front|;
    forall i | n < i < end ensures marked[i] == 0 {
      assert cleared[n..end][i - n] == 0;
    }
    forall i | 0 <= i < n ensures marked[i] == front[i] {
      assert cleared[..n][i] == front[i];
    }
  }

  /** The hash of a whole message. */
  ghost function Digest<H>(alg: Algorithm<H>, m: seq<byte>): seq<byte>
    requires alg.Valid()
  {
    alg.output(Compress(alg, alg.iv, Pad(alg, m)))
  }

  // ------------------------------------------------------------- the context

  /** SHAxxx_transform: compresses block_nb blocks in turn. */
  method Transform<H>(alg: Algorithm<H>, h0: H, data: seq<byte>, blockNb: nat) returns (h: H)
    requires alg.Valid() && |data| >= blockNb * alg.bs
    ensures h == Compress(alg, h0, data[..blockNb * alg.bs])
  {
    h := h0;
    var i := 0;
    assert data[..0] == [];
    while i < blockNb
      invariant 0 <= i <= blockNb
      invariant i * alg.bs <= |data| && h == Compress(alg, h0, data[..i * alg.bs])
    {
      MulMonotone(i + 1, blockNb, alg.bs);
      assert (i + 1) * alg.bs == i * alg.bs + alg.bs;
      WholeTimes(alg.bs, i);
      CompressNext(alg, h0, data, i * alg.bs);
      h := alg.compress(h, data[i * alg.bs..(i + 1) * alg.bs]);
      i := i + 1;
    }
  }

  lemma CompressNext<H>(alg: Algorithm<H>, h: H, data: seq<byte>, p: nat)
    requires alg.Valid() && Whole(alg.bs, p) && p + alg.bs <= |data|
    ensures Compress(alg, h, data[..p + alg.bs]) == alg.compress(Compress(alg, h, data[..p]), data[p..p + alg.bs])
  {
    var next := data[p..p + alg.bs];
    assert data[..p + alg.bs] == data[..p] + next;
    CompressConcat(alg, h, data[..p], next);
    assert next[..alg.bs] == next && next[alg.bs..] == [];
  }

  class Context<H> {
    const alg: Algorithm<H>
    var h: H
    var totLen: nat
    var len: nat
    const block: array<byte>
    ghost var msg: seq<byte>   // everything absorbed so far

    /** avb_shaxxx_init */
    constructor (alg: Algorithm<H>)
      requires alg.Valid()
      ensures Valid() && msg == [] && this.alg == alg && fresh(block)
    {
      this.alg := alg;
      h, totLen, len, msg := alg.iv, 0, 0, [];
      block := new byte[2 * alg.bs];
    }

    /** Whole blocks are in the state; the rest is at the front of the buffer. */
    ghost predicate Valid()
      reads this, block
    {
      && alg.Valid() && block.Length == 2 * alg.bs
      && len < alg.bs && Whole(alg.bs, totLen) && totLen + len == |msg|
      && block[..len] == msg[totLen..]
      && h == Compress(alg, alg.iv, msg[..totLen])
    }

    /** avb_memcpy into the block buffer. */
    method Store(at: nat, data: seq<byte>)
      requires at + |data| <= block.Length
      modifies block
      ensures block[..at] == old(block[..at]) && block[at..at + |data|] == data
      ensures block[at + |data|..] == old(block[at + |data|..])
    {
      var i := 0;
      while i < |data|
        invariant 0 <= i <= |data|
        invariant block[..at] == old(block[..at]) && block[at..at + i] == data[..i]
        invariant block[at + i..] == old(block[at + i..])
      {
        assert old(block[at + i..])[1..] == old(block[at + i + 1..]);
        assert block[at + i..][1..] == block[at + i + 1..];
        block[at + i] := data[i];
        assert block[at..at + i + 1] == block[at..at + i] + [data[i]] && data[..i + 1] == data[..i] + [data[i]];
        i := i + 1;
      }
    }

    /** avb_shaxxx_update: absorbs data of any length. */
    method Update(data: seq<byte>)
      requires Valid()
      modifies this, block
      ensures Valid() && msg == old(msg) + data
    {
      hide Compress, Whole;
      var tmpLen := alg.bs - len;
      var remLen := if |data| < tmpLen then |data| else tmpLen;
      ghost var was, front: seq<byte> := msg, block[..len];
      Store(len, data[..remLen]);
      assert block[..len + remLen] == front + data[..remLen] by {
        assert block[..len + remLen] == block[..len] + block[len..len + remLen];
      }
      if len + |data| < alg.bs {
        assert data[..remLen] == data;
        Absorbed(alg, was, totLen, data);
        len := len + |data|;
        msg := msg + data;
        return;
      }
      AbsorbWhole(data, remLen, front);
    }

    /** The branch of avb_shaxxx_update in which the buffer is full. */
    method AbsorbWhole(data: seq<byte>, rem: nat, ghost front: seq<byte>)
      requires alg.Valid() && block.Length == 2 * alg.bs && |front| == len < alg.bs && rem == alg.bs - len <= |data|
      requires Whole(alg.bs, totLen) && totLen + len == |msg| && front == msg[totLen..]
      requires h == Compress(alg, alg.iv, msg[..totLen]) && block[..alg.bs] == front + data[..rem]
      modifies this, block
      ensures Valid() && msg == old(msg) + data
    {
      hide Compress, Whole;
      var newLen := |data| - rem;
      var blockNb := newLen / alg.bs;
      var shifted := data[rem..];
      WholeAndRest(newLen, alg.bs);
      AbsorbBlocks(shifted, blockNb);
      WholeTimes(alg.bs, blockNb);
      AbsorbedBlocks(alg, msg, totLen, front, data, shifted, blockNb * alg.bs, old(h), h);
      Refill(shifted[blockNb * alg.bs..], newLen % alg.bs, totLen + (blockNb + 1) * alg.bs, msg + data);
    }

    /** The bytes behind the last whole block go to the front of the buffer. */
    method Refill(rest: seq<byte>, remLen: nat, tot: nat, ghost m: seq<byte>)
      requires alg.Valid() && block.Length == 2 * alg.bs && |rest| == remLen < alg.bs
      requires Whole(alg.bs, tot) && tot <= |m| && m[tot..] == rest && h == Compress(alg, alg.iv, m[..tot])
      modifies this`len, this`totLen, this`msg, block
      ensures Valid() && msg == m
    {
      hide Compress, Whole;
      Store(0, rest);
      assert block[..remLen] == block[0..0 + remLen];
      len, totLen, msg := remLen, tot, m;
    }

    /** avb_shaxxx_final: the digest of everything absorbed. */
    method Final() returns (digest: seq<byte>)
      requires Valid() && |msg| < 0x2000_0000_0000_0000
      modifies this, block
      ensures digest == Digest(alg, old(msg))
    {
      hide Compress, BigEndianBytes, Pad, Whole, PadZeros;
      var blockNb := 1 + if alg.bs - (alg.lengthField + 1) < len % alg.bs then 1 else 0;
      var lenB: u64 := (totLen + len) * 8 % B64;
      var pmLen := blockNb * alg.bs;
      PaddedLength(alg.bs, alg.lengthField, totLen, len);
      PadMessage(pmLen, lenB);
      PaddedMessage(alg, msg, totLen, len, pmLen);
      assert block[..][..blockNb * alg.bs] == block[..pmLen];
      CompressConcat(alg, alg.iv, msg[..totLen], block[..pmLen]);
      h := Transform(alg, h, block[..], blockNb);
      digest := alg.output(h);
    }

    /** Clears the buffer behind the data, sets the marker and the 64-bit length. */
    method PadMessage(pmLen: nat, lenB: u64)
      requires len + 9 <= pmLen <= block.Length
      modifies block
      ensures block[..pmLen] == old(block[..len]) + [0x80] + Zeros(pmLen - len - 9) + BigEndianBytes(lenB, 8)
    {
      hide BigEndianBytes;
      ghost var front := block[..len];
      Store(len, Zeros(pmLen - len));
      ghost var cleared := block[..];
      block[len] := 0x80;
      ghost var before := block[..];
      assert cleared[..len] == front && cleared[len..pmLen] == Zeros(pmLen - len);
      Marked(cleared, before, front, pmLen);
      Store(pmLen - 8, BigEndianBytes(lenB, 8));
      assert block[..pmLen - 8] == before[..pmLen - 8];
      assert block[..pmLen] == block[..pmLen - 8] + block[pmLen - 8..pmLen - 8 + 8];
    }

    /** The two calls of the transform: the full buffer, then the blocks in the input. */
    method AbsorbBlocks(shifted: seq<byte>, blockNb: nat)
      requires alg.Valid() && block.Length == 2 * alg.bs && blockNb * alg.bs <= |shifted|
      modifies this`h
      ensures h == Compress(alg, Compress(alg, old(h), block[..alg.bs]), shifted[..blockNb * alg.bs])
    {
      hide Compress;
      assert block[..alg.bs][..1 * alg.bs] == block[..alg.bs];
      h := Transform(alg, h, block[..alg.bs], 1);
      h := Transform(alg, h, shifted, blockNb);
    }
  }

  /** Input that does not complete a block only extends the buffered tail. */
  lemma Absorbed<H>(alg: Algorithm<H>, was: seq<byte>, totLen: nat, data: seq<byte>)
    requires totLen <= |was|
    ensures (was + data)[totLen..] == was[totLen..] + data && (was + data)[..totLen] == was[..totLen]
  {
  }

  /** The buffered block and the whole blocks that follow are the next blocks of the message. */
  lemma AbsorbedBlocks<H>(alg: Algorithm<H>, was: seq<byte>, totLen: nat, front: seq<byte>, data: seq<byte>,
                          shifted: seq<byte>, taken: nat, h0: H, h: H)
    requires alg.Valid() && totLen <= |was| && Whole(alg.bs, totLen) && front == was[totLen..]
    requires |front| < alg.bs <= |front| + |data| && shifted == data[alg.bs - |front|..]
    requires taken <= |shifted| && Whole(alg.bs, taken)
    requires h0 == Compress(alg, alg.iv, was[..totLen])
    requires h == Compress(alg, Compress(alg, h0, front + data[..alg.bs - |front|]), shifted[..taken])
    ensures var msg := was + data;
            var tot := totLen + taken + alg.bs;
            && tot <= |msg| && Whole(alg.bs, tot)
            && msg[tot..] == shifted[taken..]
            && h == Compress(alg, alg.iv, msg[..tot])
  {
    hide Compress, Whole;
    var first, more := front + data[..alg.bs - |front|], shifted[..taken];
    var tot := totLen + taken + alg.bs;
    TailOfMessage(was, totLen, data, alg.bs - |front|, taken);
    assert tot == |was| + (alg.bs - |front|) + taken;
    ThreeCompressions(alg, was[..totLen], first, more);
    WholeBlocks(alg.bs, totLen, taken);
  }

  lemma WholeAndRest(n: nat, bs: nat)
    requires bs > 0
    ensures n / bs * bs <= n && n % bs == n - n / bs * bs && (n / bs + 1) * bs == n / bs * bs + bs
  {
  }

  lemma WholeBlocks(bs: nat, x: nat, y: nat)
    requires (bs == 64 || bs == 128) && Whole(bs, x) && Whole(bs, y)
    ensures Whole(bs, x + y + bs)
  {
  }

  lemma ThreeCompressions<H>(alg: Algorithm<H>, a: seq<byte>, b: seq<byte>, c: seq<byte>)
    requires alg.Valid() && Whole(alg.bs, |a|) && |b| == alg.bs
    ensures Compress(alg, alg.iv, a + (b + c)) == Compress(alg, Compress(alg, Compress(alg, alg.iv, a), b), c)
  {
    hide Compress;
    CompressConcat(alg, alg.iv, a, b + c);
    CompressConcat(alg, Compress(alg, alg.iv, a), b, c);
  }

  lemma TailOfMessage(was: seq<byte>, totLen: nat, data: seq<byte>, k: nat, taken: nat)
    requires totLen <= |was| && k + taken <= |data|
    ensures var tot := |was| + k + taken;
            && (was + data)[..tot] == was[..totLen] + (was[totLen..] + data[..k] + data[k..][..taken])
            && (was + data)[tot..] == data[k..][taken..]
  {
    assert was == was[..totLen] + was[totLen..];
  }

  lemma RemainderOfTail(bs: nat, totLen: nat, len: nat)
    requires len < bs && Whole(bs, totLen)
    ensures bs == 64 ==> (totLen + len) % 64 == len
    ensures bs == 128 ==> (totLen + len) % 128 == len
  {
    if bs == 64 {
      RestOf(totLen / 64, len, 64);
    } else if bs == 128 {
      RestOf(totLen / 128, len, 128);
    }
  }

  lemma RestOf(q: nat, r: nat, bs: nat)
    requires r < bs
    ensures (bs * q + r) % bs == r
  {
    var q', r' := (bs * q + r) / bs, (bs * q + r) % bs;
    assert bs * (q - q') == r' - r;
    if q - q' >= 1 {
      MulMonotone(1, q - q', bs);
    } else if q - q' <= -1 {
      MulMonotone(q - q', -1, bs);
    }
  }

  lemma PaddedLength(bs: nat, lengthField: nat, totLen: nat, len: nat)
    requires (bs == 64 && lengthField == 8) || (bs == 128 && lengthField == 16)
    requires len < bs && Whole(bs, totLen)
    ensures var blockNb := 1 + if bs - (lengthField + 1) < len % bs then 1 else 0;
            blockNb * bs == len + 1 + PadZeros(bs, lengthField, totLen + len) + lengthField
  {
    assert len % bs == len;
    RemainderOfTail(bs, totLen, len);
  }

  /** The buffer after padding is the tail of the padded message. */
  lemma PaddedMessage<H>(alg: Algorithm<H>, msg: seq<byte>, totLen: nat, len: nat, pmLen: nat)
    requires alg.Valid() && len < alg.bs && Whole(alg.bs, totLen) && totLen + len == |msg| < 0x2000_0000_0000_0000
    requires pmLen == len + 1 + PadZeros(alg.bs, alg.lengthField, |msg|) + alg.lengthField
    ensures Pad(alg, msg) == msg[..totLen]
              + (msg[totLen..] + [0x80] + Zeros(pmLen - len - 9) + BigEndianBytes(8 * |msg| % B64, 8))
  {
    hide BigEndianBytes, PadZeros, Zeros, Whole;
    var k, x, extra := PadZeros(alg.bs, alg.lengthField, |msg|), 8 * |msg|, alg.lengthField - 8;
    SmallLength(x);
    LengthField(x, k, extra);
    var a, b, z, e := msg[..totLen], msg[totLen..], Zeros(k), BigEndianBytes(x, alg.lengthField);
    Regroup(a, b, [0x80], z, e, Zeros(k + extra), BigEndianBytes(x, 8));
    Halves(msg, totLen);
    assert Pad(alg, msg) == (a + b) + [0x80] + z + e;
  }

  lemma SmallLength(x: nat)
    requires x < B64
    ensures x % B64 == x
  {
  }

  lemma Halves(m: seq<byte>, k: nat)
    requires k <= |m|
    ensures m == m[..k] + m[k..]
  {
  }

  /** A 64-bit length in a wider field only adds zeros. */
  lemma LengthField(x: nat, k: nat, extra: nat)
    requires x < B64
    ensures Zeros(k) + BigEndianBytes(x, extra + 8) == Zeros(k + extra) + BigEndianBytes(x, 8)
  {
    hide BigEndianBytes;
    Powers();
    LeadingZeros(x, 8, extra);
    assert Zeros(k) + Zeros(extra) == Zeros(k + extra);
  }

  lemma Regroup(a: seq<byte>, b: seq<byte>, c: seq<byte>, d: seq<byte>, e: seq<byte>, d': seq<byte>, e': seq<byte>)
    requires d + e == d' + e'
    ensures (a + b) + c + d + e == a + (b + c + d' + e')
  {
    assert (a + b) + c + d + e == a + b + c + (d + e);
    assert a + (b + c + d' + e') == a + b + c + (d' + e');
  }

  /** Hashing a message in parts of any sizes, as the digest over all vbmeta images does,
      gives the hash of the concatenation. */
  method DigestOfParts<H>(alg: Algorithm<H>, parts: seq<seq<byte>>) returns (digest: seq<byte>)
    requires alg.Valid() && |Joined(parts)| < 0x2000_0000_0000_0000
    ensures digest == Digest(alg, Joined(parts))
  {
    var ctx := new Context(alg);
    var n := 0;
    assert parts[..0] == [];
    while n < |parts|
      invariant 0 <= n <= |parts| && ctx.Valid() && fresh(ctx) && fresh(ctx.block) && ctx.alg == alg
      invariant ctx.msg == Joined(parts[..n])
    {
      ctx.Update(parts[n]);
      assert parts[..n + 1][..n] == parts[..n];
      n := n + 1;
    }
    assert parts[..n] == parts;
    digest := ctx.Final();
  }

  ghost function Joined(parts: seq<seq<byte>>): seq<byte>
  {
    if parts == [] then [] else Joined(parts[..|parts| - 1]) + parts[|parts| - 1]
  }
}
