/** avb_descriptor.c and the validators of the descriptor types: finding the descriptors of a
    vbmeta image and taking them apart. */
module Descriptors {
  import opened Words
  import opened Vbmeta

  const DESCRIPTOR_SIZE := 16

  const TAG_PROPERTY := 0
  const TAG_HASHTREE := 1
  const TAG_HASH := 2
  const TAG_KERNEL_CMDLINE := 3
  const TAG_CHAIN_PARTITION := 4

  function Tag(mem: Memory, p: nat): u64
  {
    Be64(mem.Slice(p, 8))
  }

  /** The num_bytes_following field of the descriptor at p. */
  function Following(mem: Memory, p: nat): u64
  {
    Be64(mem.Slice(p + 8, 8))
  }

  // ----------------------------------------------------------- specification

  /** The descriptors visited from offset p on, and whether the region was consumed exactly.
      The last case is a length that makes the address wrap around to inside the region: the
      descriptor is visited before the overflow is noticed. */
  function Walk(mem: Memory, start: nat, end: nat, p: nat): (r: (seq<nat>, bool))
    requires start <= p <= end
    decreases end - p
  {
    if p == end then ([], true)
    else
      var total := DESCRIPTOR_SIZE + Following(mem, p);
      if total >= B64 || total % 8 != 0 then ([], false)
      else if p + total <= end then
        var rest := Walk(mem, start, end, p + total);
        ([p] + rest.0, rest.1)
      else if p + total >= B64 + start then ([p], false)
      else ([], false)
  }

  lemma WalkStep(mem: Memory, start: nat, end: nat, p: nat, total: nat)
    requires start <= p < end && total == DESCRIPTOR_SIZE + Following(mem, p)
    ensures total < B64 && total % 8 == 0 && p + total <= end ==>
              Walk(mem, start, end, p) == ([p] + Walk(mem, start, end, p + total).0, Walk(mem, start, end, p + total).1)
    ensures total < B64 && total % 8 == 0 && p + total > end ==>
              Walk(mem, start, end, p) == if p + total >= B64 + start then ([p], false) else ([], false)
    ensures total >= B64 || total % 8 != 0 ==> Walk(mem, start, end, p) == ([], false)
  {
  }

  function RegionStart(h: Header): nat
  {
    (HEADER_SIZE + h.authSize + h.descriptorsOffset) % B64
  }

  function RegionEnd(h: Header): nat
  {
    (RegionStart(h) + h.descriptorsSize) % B64
  }

  predicate HasRegion(image: seq<byte>)
  {
    && |image| >= HEADER_SIZE && HeaderOf(image).magic == MAGIC
    && RegionStart(HeaderOf(image)) <= RegionEnd(HeaderOf(image)) <= |image|
  }

  /** The offsets of all descriptors of an image, as avb_descriptor_get_all finds them. */
  function AllDescriptors(mem: Memory): seq<nat>
  {
    if HasRegion(mem.bytes) then
      var h := HeaderOf(mem.bytes);
      Walk(mem, RegionStart(h), RegionEnd(h), RegionStart(h)).0
    else []
  }

  /** The descriptor region is consumed to its end. */
  predicate Consumed(mem: Memory)
    requires HasRegion(mem.bytes)
  {
    var h := HeaderOf(mem.bytes);
    Walk(mem, RegionStart(h), RegionEnd(h), RegionStart(h)).1
  }

  // ------------------------------------------------------ avb_descriptor_foreach

  /** Addresses of the image and its descriptors, with 64-bit pointer arithmetic. */
  method DescriptorForeach(mem: Memory, base: u64) returns (ok: bool, visited: seq<nat>)
    requires base + |mem.bytes| < B64
    ensures visited == AllDescriptors(mem)
    ensures ok <==> HasRegion(mem.bytes) && Consumed(mem)
  {
    hide HeaderOf, Walk;
    ok, visited := false, [];
    if |mem.bytes| < HEADER_SIZE {
      return;
    }
    var header := HeaderOf(mem.bytes);
    if header.magic != MAGIC {
      return;
    }
    var imageEnd := base + |mem.bytes|;
    var descStart: u64 := (base + HEADER_SIZE + header.authSize + header.descriptorsOffset) % B64;
    var descEnd: u64 := (descStart + header.descriptorsSize) % B64;
    Relative(base, |mem.bytes|, HEADER_SIZE + header.authSize + header.descriptorsOffset, header.descriptorsSize);
    if descStart < base || descStart > imageEnd || descEnd < base || descEnd > imageEnd || descEnd < descStart {
      return;
    }
    ok, visited := VisitRegion(mem, base, descStart, descEnd);
  }

  /** In-range addresses are base plus offset. */
  lemma Relative(base: u64, length: nat, offset: nat, size: u64)
    requires base + length < B64
    ensures var s, o := (base + offset) % B64, offset % B64;
            (base <= s <= base + length <==> o <= length) && (o <= length ==> s == base + o)
    ensures var s, o := (base + offset) % B64, offset % B64;
            var e, f := (s + size) % B64, (o + size) % B64;
            o <= length ==> (base <= e <= base + length <==> f <= length) && (f <= length ==> e == base + f)
  {
    var o := offset % B64;
    assert (base + offset) % B64 == (base + o) % B64;
    if o <= length {
      var f := (o + size) % B64;
      assert (base + o + size) % B64 == (base + f) % B64;
    }
  }

  /** The range test on the wrapped address, in terms of offsets. */
  lemma NextAddress(base: nat, descStart: nat, descEnd: nat, p: nat, total: nat)
    requires base <= descStart <= p < descEnd < B64 && total < B64
    ensures var next := (total + p) % B64;
            (descStart <= next <= descEnd <==>
              p - base + total <= descEnd - base || p - base + total >= B64 + (descStart - base))
  {
    if total + p < B64 {
      assert (total + p) % B64 == total + p;
    } else {
      assert (total + p) % B64 == total + p - B64;
    }
  }

  /** The checks on the descriptor at address p: is it visited, and where is the next one? */
  method VisitOne(mem: Memory, base: u64, descStart: u64, descEnd: u64, p: u64) returns (visit: bool, next: Option<u64>)
    requires base <= descStart <= p < descEnd
    ensures var start, end := descStart - base, descEnd - base;
            if !visit then next.None? && Walk(mem, start, end, p - base) == ([], false)
            else if next.None? then Walk(mem, start, end, p - base) == ([p - base], false)
            else
              && p < next.value <= descEnd
              && var rest := Walk(mem, start, end, next.value - base);
                 Walk(mem, start, end, p - base) == ([p - base] + rest.0, rest.1)
  {
    hide Following, Walk;
    var following := Following(mem, p - base);
    WalkStep(mem, descStart - base, descEnd - base, p - base, DESCRIPTOR_SIZE + following);
    var (total, noWrap) := SafeAdd(DESCRIPTOR_SIZE, following);
    if !noWrap || total % 8 != 0 {
      return false, None;
    }
    NextAddress(base, descStart, descEnd, p, total);
    var address: u64 := (total + p) % B64;
    if address < descStart || address > descEnd {
      return false, None;
    }
    var (sum, noWrap') := SafeAdd(p, total);
    return true, if noWrap' then Some(sum) else None;
  }

  /** The loop of avb_descriptor_foreach. */
  method VisitRegion(mem: Memory, base: u64, descStart: u64, descEnd: u64) returns (ok: bool, visited: seq<nat>)
    requires base <= descStart <= descEnd < B64
    ensures (visited, ok) == Walk(mem, descStart - base, descEnd - base, descStart - base)
  {
    hide Walk, VisitedTo, Following;
    ghost var start, end := descStart - base, descEnd - base;
    NoneVisited(mem, start, end);
    var p := descStart;
    ok, visited := false, [];
    while p < descEnd
      invariant descStart <= p <= descEnd
      invariant VisitedTo(mem, start, end, visited, p - base)
    {
      var visit, next := VisitOne(mem, base, descStart, descEnd, p);
      VisitNext(mem, start, end, visited, p - base, if next.None? then p - base else next.value - base);
      if !visit {
        return;
      }
      visited := visited + [p - base];
      if next.None? {
        return;
      }
      p := next.value;
    }
    ok := true;
    AllVisited(mem, start, end, visited);
  }

  /** After some visits, the whole walk is those visits and the walk from offset o on. */
  ghost predicate VisitedTo(mem: Memory, start: nat, end: nat, visited: seq<nat>, o: nat)
    requires start <= o <= end
  {
    Walk(mem, start, end, start) == (visited + Walk(mem, start, end, o).0, Walk(mem, start, end, o).1)
  }

  lemma NoneVisited(mem: Memory, start: nat, end: nat)
    requires start <= end
    ensures VisitedTo(mem, start, end, [], start)
  {
    hide Walk;
    assert [] + Walk(mem, start, end, start).0 == Walk(mem, start, end, start).0;
  }

  lemma AllVisited(mem: Memory, start: nat, end: nat, visited: seq<nat>)
    requires start <= end && VisitedTo(mem, start, end, visited, end)
    ensures Walk(mem, start, end, start) == (visited, true)
  {
    WalkEnd(mem, start, end);
    assert visited + [] == visited;
  }

  /** What becomes of the visits at offset o: it ends the walk, or is the last one, or another follows. */
  lemma VisitNext(mem: Memory, start: nat, end: nat, visited: seq<nat>, o: nat, next: nat)
    requires start <= o <= end && start <= next <= end && VisitedTo(mem, start, end, visited, o)
    ensures var here, rest, all := Walk(mem, start, end, o), Walk(mem, start, end, next), Walk(mem, start, end, start);
            && (here == ([], false) ==> all == (visited, false))
            && (here == ([o], false) ==> all == (visited + [o], false))
            && (here == ([o] + rest.0, rest.1) ==> VisitedTo(mem, start, end, visited + [o], next))
  {
    hide Walk;
    var rest := Walk(mem, start, end, next);
    assert visited + [] == visited && visited + ([o] + rest.0) == visited + [o] + rest.0;
  }

  lemma WalkEnd(mem: Memory, start: nat, end: nat)
    requires start <= end
    ensures Walk(mem, start, end, end) == ([], true)
  {
  }

  /** Two passes, the first only counting. */
  method DescriptorGetAll(mem: Memory, base: u64) returns (all: array<nat>, count: nat)
    requires base + |mem.bytes| < B64
    ensures count == |AllDescriptors(mem)| && all.Length == count + 1 && all[..count] == AllDescriptors(mem)
  {
    var _, first := DescriptorForeach(mem, base);
    count := |first|;
    all := new nat[count + 1];
    var _, second := DescriptorForeach(mem, base);
    var number := 0;
    while number < |second|
      invariant 0 <= number <= |second| == count
      invariant all[..number] == second[..number]
    {
      all[number] := second[number];
      number := number + 1;
    }
  }

  // ------------------------------------------- what a consumed region looks like

  /** One descriptor: its length field is right and its size a multiple of 8. */
  predicate WellFormed(d: seq<byte>)
  {
    DESCRIPTOR_SIZE <= |d| && |d| % 8 == 0 && BigEndian(d[8..16]) == |d| - DESCRIPTOR_SIZE
  }

  predicate AllWellFormed(ds: seq<seq<byte>>)
  {
    forall d :: d in ds ==> WellFormed(d)
  }

  function Flat(ds: seq<seq<byte>>): seq<byte>
  {
    if ds == [] then [] else ds[0] + Flat(ds[1..])
  }

  /** Where the descriptors of a concatenation begin. */
  function Offsets(p: nat, ds: seq<seq<byte>>): (r: seq<nat>)
    ensures |r| == |ds|
    decreases |ds|
  {
    if ds == [] then [] else [p] + Offsets(p + |ds[0]|, ds[1..])
  }

  /** A concatenation of descriptors is visited descriptor by descriptor, to its end. */
  lemma {:induction false} WalkOfStream(mem: Memory, start: nat, end: nat, p: nat, ds: seq<seq<byte>>)
    requires start <= p <= end <= |mem.bytes| < B64
    requires mem.bytes[p..end] == Flat(ds) && AllWellFormed(ds)
    ensures Walk(mem, start, end, p) == (Offsets(p, ds), true)
    decreases |ds|
  {
    if ds == [] {
      assert p == end;
      WalkEnd(mem, start, end);
    } else {
      var d := ds[0];
      StreamHead(p, ds);
      hide Walk, Following, WellFormed, AllWellFormed, Flat, Offsets;
      FirstOfStream(mem, end, p, d, Flat(ds[1..]));
      WalkOfStream(mem, start, end, p + |d|, ds[1..]);
      WalkOn(mem, start, end, p, |d|, Offsets(p + |d|, ds[1..]));
    }
  }

  lemma WalkOn(mem: Memory, start: nat, end: nat, p: nat, total: nat, rest: seq<nat>)
    requires start <= p < end && total == DESCRIPTOR_SIZE + Following(mem, p) < B64 && total % 8 == 0 && p + total <= end
    requires Walk(mem, start, end, p + total) == (rest, true)
    ensures Walk(mem, start, end, p) == ([p] + rest, true)
  {
    hide Following;
  }

  lemma StreamHead(p: nat, ds: seq<seq<byte>>)
    requires ds != [] && AllWellFormed(ds)
    ensures WellFormed(ds[0]) && AllWellFormed(ds[1..]) && Flat(ds) == ds[0] + Flat(ds[1..])
    ensures Offsets(p, ds) == [p] + Offsets(p + |ds[0]|, ds[1..])
  {
    hide WellFormed;
    assert ds[0] in ds && forall d :: d in ds[1..] ==> d in ds;
  }

  /** The descriptor at the start of a region gives its length, and the rest lies behind it. */
  lemma FirstOfStream(mem: Memory, end: nat, p: nat, d: seq<byte>, rest: seq<byte>)
    requires p <= end <= |mem.bytes| < B64 && WellFormed(d) && mem.bytes[p..end] == d + rest
    ensures |d| == DESCRIPTOR_SIZE + Following(mem, p) && p + |d| <= end && mem.bytes[p + |d|..end] == rest && |d| % 8 == 0 < |d| < B64
  {
    hide BigEndian, Be64;
    assert |mem.bytes[p..end]| == |d| + |rest|;
    assert mem.bytes[p..end][8..16] == d[8..16];
    assert mem.Slice(p + 8, 8) == mem.bytes[p + 8..p + 16] == mem.bytes[p..end][8..16];
    assert mem.bytes[p + |d|..end] == mem.bytes[p..end][|d|..] == rest;
  }

  /** Conversely, a region that is consumed to its end is such a concatenation. */
  lemma {:induction false} StreamOfWalk(mem: Memory, start: nat, end: nat, p: nat) returns (ds: seq<seq<byte>>)
    requires start <= p <= end <= |mem.bytes| && Walk(mem, start, end, p).1
    ensures mem.bytes[p..end] == Flat(ds) && AllWellFormed(ds)
    ensures Walk(mem, start, end, p).0 == Offsets(p, ds)
    decreases end - p
  {
    if p == end {
      ds := [];
    } else {
      hide Walk, Following;
      var total := DESCRIPTOR_SIZE + Following(mem, p);
      WalkStep(mem, start, end, p, total);
      var rest := StreamOfWalk(mem, start, end, p + total);
      DescriptorAt(mem, p, total);
      ds := [mem.bytes[p..p + total]] + rest;
      StreamCons(mem, p, total, end, rest);
    }
  }

  lemma StreamCons(mem: Memory, p: nat, total: nat, end: nat, rest: seq<seq<byte>>)
    requires p + total <= end <= |mem.bytes| && WellFormed(mem.bytes[p..p + total])
    requires mem.bytes[p + total..end] == Flat(rest) && AllWellFormed(rest)
    ensures var ds := [mem.bytes[p..p + total]] + rest;
            mem.bytes[p..end] == Flat(ds) && AllWellFormed(ds) && Offsets(p, ds) == [p] + Offsets(p + total, rest)
  {
    hide WellFormed;
    var d := mem.bytes[p..p + total];
    assert ([d] + rest)[1..] == rest;
    assert mem.bytes[p..end] == d + mem.bytes[p + total..end];
  }

  lemma DescriptorAt(mem: Memory, p: nat, total: nat)
    requires total == DESCRIPTOR_SIZE + Following(mem, p) && total % 8 == 0 && p + total <= |mem.bytes|
    ensures WellFormed(mem.bytes[p..p + total])
  {
    assert mem.bytes[p..p + total][8..16] == mem.Slice(p + 8, 8);
  }

  /** The walk succeeds exactly on concatenations of well-formed descriptors. */
  lemma WalkSucceedsIff(mem: Memory, start: nat, end: nat)
    requires start <= end <= |mem.bytes| < B64
    ensures Walk(mem, start, end, start).1 <==>
              exists ds :: AllWellFormed(ds) && mem.bytes[start..end] == Flat(ds)
  {
    if Walk(mem, start, end, start).1 {
      var ds := StreamOfWalk(mem, start, end, start);
    }
    if ds :| AllWellFormed(ds) && mem.bytes[start..end] == Flat(ds) {
      WalkOfStream(mem, start, end, start, ds);
    }
  }

  // ------------------------------------------------------- the descriptor types

  datatype HashDescriptor = HashDescriptor(imageSize: u64, algorithm: seq<byte>, name: seq<byte>,
                                           salt: seq<byte>, digest: seq<byte>, flags: u32)

  datatype ChainDescriptor = ChainDescriptor(rollbackLocation: u32, name: seq<byte>, key: seq<byte>)

  datatype HashtreeDescriptor = HashtreeDescriptor(algorithm: seq<byte>, name: seq<byte>, rootDigestLen: u32, flags: u32)

  /** avb_descriptor_validate_and_byteswap and the tag test. */
  predicate HasTag(mem: Memory, p: nat, tag: int)
  {
    Following(mem, p) % 8 == 0 && Tag(mem, p) == tag
  }

  /** avb_hash_descriptor_validate_and_byteswap, with the data behind the struct. */
  function ParseHash(mem: Memory, p: nat): (r: Option<HashDescriptor>)
    ensures r.Some? ==> |r.value.salt| < B32
  {
    var nameLen, saltLen, digestLen := Be32(mem.Slice(p + 56, 4)), Be32(mem.Slice(p + 60, 4)), Be32(mem.Slice(p + 64, 4));
    if !HasTag(mem, p, TAG_HASH) || 116 + nameLen + saltLen + digestLen > Following(mem, p) then None
    else
      Some(HashDescriptor(
             Be64(mem.Slice(p + 16, 8)), mem.Slice(p + 24, 32),
             mem.Slice(p + 132, nameLen), mem.Slice(p + 132 + nameLen, saltLen),
             mem.Slice(p + 132 + nameLen + saltLen, digestLen), Be32(mem.Slice(p + 68, 4))))
  }

  /** avb_chain_partition_descriptor_validate_and_byteswap. */
  function ParseChain(mem: Memory, p: nat): (r: Option<ChainDescriptor>)
    ensures r.Some? ==> r.value.rollbackLocation >= 1
  {
    var location, nameLen, keyLen := Be32(mem.Slice(p + 16, 4)), Be32(mem.Slice(p + 20, 4)), Be32(mem.Slice(p + 24, 4));
    if !HasTag(mem, p, TAG_CHAIN_PARTITION) || location < 1 || 76 + nameLen + keyLen > Following(mem, p) then None
    else Some(ChainDescriptor(location, mem.Slice(p + 92, nameLen), mem.Slice(p + 92 + nameLen, keyLen)))
  }

  /** avb_hashtree_descriptor_validate_and_byteswap, as far as the fields are used. */
  function ParseHashtree(mem: Memory, p: nat): Option<HashtreeDescriptor>
  {
    var nameLen, saltLen, digestLen := Be32(mem.Slice(p + 104, 4)), Be32(mem.Slice(p + 108, 4)), Be32(mem.Slice(p + 112, 4));
    if !HasTag(mem, p, TAG_HASHTREE) || 164 + nameLen + saltLen + digestLen > Following(mem, p) then None
    else Some(HashtreeDescriptor(mem.Slice(p + 72, 32), mem.Slice(p + 180, nameLen), digestLen, Be32(mem.Slice(p + 116, 4))))
  }

  /** avb_kernel_cmdline_descriptor_validate_and_byteswap: the command line. */
  function ParseCmdline(mem: Memory, p: nat): Option<seq<byte>>
  {
    var length := Be32(mem.Slice(p + 20, 4));
    if !HasTag(mem, p, TAG_KERNEL_CMDLINE) || 8 + length > Following(mem, p) then None
    else Some(mem.Slice(p + 24, length))
  }

  // ------------------------------------- what the parsers make of given bytes

  /** A descriptor as the C structs lay it out: tag, length of what follows, and that. */
  function Record(tag: u32, body: seq<byte>): (d: seq<byte>)
    ensures |d| == DESCRIPTOR_SIZE + |body|
  {
    BigEndianBytes(tag, 8) + BigEndianBytes(|body|, 8) + body
  }

  ghost predicate StandsAt(mem: Memory, p: nat, d: seq<byte>)
  {
    p + |d| <= |mem.bytes| && mem.bytes[p..p + |d|] == d
  }

  /** The bytes of a memory in which s stands behind a. */
  lemma SliceBehind(mem: Memory, p: nat, a: seq<byte>, s: seq<byte>, b: seq<byte>)
    requires StandsAt(mem, p, a + s + b)
    ensures mem.Slice(p + |a|, |s|) == s
  {
    var d := a + s + b;
    assert mem.bytes[p..p + |d|][|a|..|a| + |s|] == s;
  }

  /** A number in four or eight bytes. */
  lemma NumberBehind(mem: Memory, p: nat, a: seq<byte>, x: nat, n: nat, b: seq<byte>)
    requires (n == 4 && x < B32) || (n == 8 && x < B64)
    requires StandsAt(mem, p, a + BigEndianBytes(x, n) + b)
    ensures BigEndian(mem.Slice(p + |a|, n)) == x
  {
    hide BigEndian, BigEndianBytes;
    SliceBehind(mem, p, a, BigEndianBytes(x, n), b);
    Powers();
    BigEndianOfBytes(x, n);
  }

  lemma RecordHead(mem: Memory, p: nat, tag: u32, body: seq<byte>)
    requires StandsAt(mem, p, Record(tag, body)) && |body| < B64
    ensures Tag(mem, p) == tag && Following(mem, p) == |body| && StandsAt(mem, p + DESCRIPTOR_SIZE, body)
  {
    hide BigEndian, BigEndianBytes;
    var first, second := BigEndianBytes(tag, 8), BigEndianBytes(|body|, 8);
    var d := Record(tag, body);
    assert d == [] + first + (second + body);
    NumberBehind(mem, p, [], tag, 8, second + body);
    NumberBehind(mem, p, first, |body|, 8, body);
    assert mem.bytes[p..p + |d|][16..] == body;
  }

  /** The text behind the fixed fields. */
  lemma TailBehind(mem: Memory, p: nat, a: seq<byte>, rest: seq<byte>, i: nat, n: nat)
    requires StandsAt(mem, p, a + rest) && i + n <= |rest|
    ensures mem.Slice(p + |a| + i, n) == rest[i..i + n]
  {
    var d := a + rest;
    assert mem.bytes[p..p + |d|][|a| + i..|a| + i + n] == rest[i..i + n];
  }

  /** A chain descriptor, whatever its fields: location, name length, key length, 64 reserved bytes,
      then name and key. */
  lemma ChainOfRecord(mem: Memory, p: nat, location: u32, nameLen: u32, keyLen: u32, reserved: seq<byte>, rest: seq<byte>)
    requires |reserved| == 64 && 76 + |rest| < B64
    requires StandsAt(mem, p, Record(4, BigEndianBytes(location, 4) + BigEndianBytes(nameLen, 4) + BigEndianBytes(keyLen, 4) + reserved + rest))
    ensures ParseChain(mem, p) ==
              if (76 + |rest|) % 8 != 0 || location == 0 || nameLen + keyLen > |rest| then None
              else Some(ChainDescriptor(location, rest[..nameLen], rest[nameLen..nameLen + keyLen]))
  {
    hide BigEndian, BigEndianBytes, Record, Tag, Following, StandsAt;
    var a, b, c := BigEndianBytes(location, 4), BigEndianBytes(nameLen, 4), BigEndianBytes(keyLen, 4);
    var q := p + DESCRIPTOR_SIZE;
    RecordHead(mem, p, 4, a + b + c + reserved + rest);
    ThreeNumbers(mem, q, location, nameLen, keyLen, reserved, rest);
    if nameLen + keyLen <= |rest| {
      var front := a + b + c + reserved;
      assert |front| == 76;
      TailBehind(mem, q, front, rest, 0, nameLen);
      TailBehind(mem, q, front, rest, nameLen, keyLen);
    }
    hide Memory.Slice;
    assert HasTag(mem, p, TAG_CHAIN_PARTITION) <==> (76 + |rest|) % 8 == 0;
  }

  lemma ThreeNumbers(mem: Memory, q: nat, x: u32, y: u32, z: u32, reserved: seq<byte>, rest: seq<byte>)
    requires StandsAt(mem, q, BigEndianBytes(x, 4) + BigEndianBytes(y, 4) + BigEndianBytes(z, 4) + reserved + rest)
    ensures BigEndian(mem.Slice(q, 4)) == x && BigEndian(mem.Slice(q + 4, 4)) == y && BigEndian(mem.Slice(q + 8, 4)) == z
  {
    hide BigEndian, BigEndianBytes, StandsAt;
    var a, b, c := BigEndianBytes(x, 4), BigEndianBytes(y, 4), BigEndianBytes(z, 4);
    var all := a + b + c + reserved + rest;
    assert all == [] + a + (b + c + reserved + rest);
    NumberBehind(mem, q, [], x, 4, b + c + reserved + rest);
    assert all == a + b + (c + reserved + rest);
    NumberBehind(mem, q, a, y, 4, c + reserved + rest);
    assert all == (a + b) + c + (reserved + rest);
    NumberBehind(mem, q, a + b, z, 4, reserved + rest);
  }

  /** A kernel command line: flags, length, text. */
  lemma CmdlineOfRecord(mem: Memory, p: nat, flags: u32, length: u32, rest: seq<byte>)
    requires 8 + |rest| < B64
    requires StandsAt(mem, p, Record(3, BigEndianBytes(flags, 4) + BigEndianBytes(length, 4) + rest))
    ensures ParseCmdline(mem, p) == if (8 + |rest|) % 8 != 0 || length > |rest| then None else Some(rest[..length])
  {
    hide BigEndian, BigEndianBytes, Record, Tag, Following, StandsAt;
    var a, b := BigEndianBytes(flags, 4), BigEndianBytes(length, 4);
    var q := p + DESCRIPTOR_SIZE;
    RecordHead(mem, p, 3, a + b + rest);
    NumberBehind(mem, q, a, length, 4, rest);
    if length <= |rest| {
      TailBehind(mem, q, a + b, rest, 0, length);
    }
  }

  /** Hash and hashtree descriptors have an algorithm name of 32 bytes, three lengths, flags and 60
      reserved bytes in front of name, salt and digest. */
  function Fields(algorithm: seq<byte>, nameLen: u32, saltLen: u32, digestLen: u32, flags: u32, reserved: seq<byte>): (s: seq<byte>)
    ensures |s| == |algorithm| + 16 + |reserved|
  {
    algorithm + BigEndianBytes(nameLen, 4) + BigEndianBytes(saltLen, 4) + BigEndianBytes(digestLen, 4) + BigEndianBytes(flags, 4) + reserved
  }

  lemma FieldsRead(mem: Memory, q: nat, front: seq<byte>, algorithm: seq<byte>, nameLen: u32, saltLen: u32, digestLen: u32, flags: u32,
                   reserved: seq<byte>, rest: seq<byte>)
    requires StandsAt(mem, q, front + Fields(algorithm, nameLen, saltLen, digestLen, flags, reserved) + rest) && |algorithm| == 32
    ensures var o := q + |front|;
            && mem.Slice(o, 32) == algorithm && BigEndian(mem.Slice(o + 32, 4)) == nameLen && BigEndian(mem.Slice(o + 36, 4)) == saltLen
            && BigEndian(mem.Slice(o + 40, 4)) == digestLen && BigEndian(mem.Slice(o + 44, 4)) == flags
  {
    hide BigEndian, BigEndianBytes, StandsAt;
    var a, b, c, d := BigEndianBytes(nameLen, 4), BigEndianBytes(saltLen, 4), BigEndianBytes(digestLen, 4), BigEndianBytes(flags, 4);
    var all := front + Fields(algorithm, nameLen, saltLen, digestLen, flags, reserved) + rest;
    assert all == front + algorithm + (a + b + c + d + reserved + rest);
    SliceBehind(mem, q, front, algorithm, a + b + c + d + reserved + rest);
    assert all == (front + algorithm) + a + (b + c + d + reserved + rest);
    NumberBehind(mem, q, front + algorithm, nameLen, 4, b + c + d + reserved + rest);
    assert all == (front + algorithm + a) + b + (c + d + reserved + rest);
    NumberBehind(mem, q, front + algorithm + a, saltLen, 4, c + d + reserved + rest);
    assert all == (front + algorithm + a + b) + c + (d + reserved + rest);
    NumberBehind(mem, q, front + algorithm + a + b, digestLen, 4, d + reserved + rest);
    assert all == (front + algorithm + a + b + c) + d + (reserved + rest);
    NumberBehind(mem, q, front + algorithm + a + b + c, flags, 4, reserved + rest);
  }

  /** A hash descriptor, whatever its fields. */
  lemma HashOfRecord(mem: Memory, p: nat, imageSize: u64, algorithm: seq<byte>, nameLen: u32, saltLen: u32, digestLen: u32, flags: u32,
                     reserved: seq<byte>, rest: seq<byte>)
    requires |algorithm| == 32 && |reserved| == 60 && 116 + |rest| < B64
    requires StandsAt(mem, p, Record(2, BigEndianBytes(imageSize, 8) + Fields(algorithm, nameLen, saltLen, digestLen, flags, reserved) + rest))
    ensures ParseHash(mem, p) ==
              if (116 + |rest|) % 8 != 0 || nameLen + saltLen + digestLen > |rest| then None
              else Some(HashDescriptor(imageSize, algorithm, rest[..nameLen], rest[nameLen..nameLen + saltLen],
                                       rest[nameLen + saltLen..nameLen + saltLen + digestLen], flags))
  {
    hide BigEndian, BigEndianBytes, Record, Tag, Following, StandsAt, Fields;
    var front, fields := BigEndianBytes(imageSize, 8), Fields(algorithm, nameLen, saltLen, digestLen, flags, reserved);
    var q := p + DESCRIPTOR_SIZE;
    RecordHead(mem, p, 2, front + fields + rest);
    FieldsRead(mem, q, front, algorithm, nameLen, saltLen, digestLen, flags, reserved, rest);
    assert front + fields + rest == [] + front + (fields + rest);
    NumberBehind(mem, q, [], imageSize, 8, fields + rest);
    if nameLen + saltLen + digestLen <= |rest| {
      TailBehind(mem, q, front + fields, rest, 0, nameLen);
      TailBehind(mem, q, front + fields, rest, nameLen, saltLen);
      TailBehind(mem, q, front + fields, rest, nameLen + saltLen, digestLen);
    }
  }

  /** A hashtree descriptor, of whose first 56 bytes, the geometry of the tree, nothing is used. */
  lemma HashtreeOfRecord(mem: Memory, p: nat, geometry: seq<byte>, algorithm: seq<byte>, nameLen: u32, saltLen: u32, digestLen: u32,
                         flags: u32, reserved: seq<byte>, rest: seq<byte>)
    requires |geometry| == 56 && |algorithm| == 32 && |reserved| == 60 && 164 + |rest| < B64
    requires StandsAt(mem, p, Record(1, geometry + Fields(algorithm, nameLen, saltLen, digestLen, flags, reserved) + rest))
    ensures ParseHashtree(mem, p) ==
              if (164 + |rest|) % 8 != 0 || nameLen + saltLen + digestLen > |rest| then None
              else Some(HashtreeDescriptor(algorithm, rest[..nameLen], digestLen, flags))
  {
    hide BigEndian, BigEndianBytes, Record, Tag, Following, StandsAt, Fields;
    var fields := Fields(algorithm, nameLen, saltLen, digestLen, flags, reserved);
    var q := p + DESCRIPTOR_SIZE;
    RecordHead(mem, p, 1, geometry + fields + rest);
    FieldsRead(mem, q, geometry, algorithm, nameLen, saltLen, digestLen, flags, reserved, rest);
    if nameLen <= |rest| {
      TailBehind(mem, q, geometry + fields, rest, 0, nameLen);
    }
  }
}
