/** The Kotlin side of vbmeta descriptors: encoding and parsing of hash, property and
    unknown-tag descriptors, the descriptor stream, and re-encoding by sequence number. */
module DescriptorStream {
  import opened Words
  import opened Struct
  import D = Descriptors

  datatype Desc =
    | Property(key: seq<byte>, value: seq<byte>)
    | Hash(flags: nat, name: seq<byte>, algorithm: seq<byte>, imageSize: nat, salt: seq<byte>, digest: seq<byte>)
    | Unknown(tag: nat, data: seq<byte>)
  {
    /** ASCII strings without NUL, sizes that fit an Int, a tag of no known type. */
    predicate Valid()
    {
      match this
      case Property(key, value) => NoNul(key) && NoNul(value) && |key| + |value| < MAX_INT - 64
      case Hash(flags, name, algorithm, imageSize, salt, digest) =>
        flags < B32 && imageSize < B64 &&
        NoNul(name) && NoNul(algorithm) && |algorithm| <= 32 && |name| + |salt| + |digest| < MAX_INT - 256
      case Unknown(tag, data) => tag < B64 && tag % B32 > 4 && |data| < MAX_INT - 16
    }
  }

  const MAX_INT := 0x7fff_ffff

  const HASH_ITEMS := [Word64, Word64, Word64, Text(32), Word32, Word32, Word32, Word32, Pad(60)]
  const PROPERTY_ITEMS := [Word64, Word64, Word64, Word64]
  const UNKNOWN_ITEMS := [Word64, Word64]

  /** The format strings "!3Q32s4L60x", "!4Q" and "!QQ", and the SIZE constants. */
  lemma Formats()
    ensures Expanded([Token(3, 'Q'), Token(32, 's'), Token(4, 'L'), Token(60, 'x')]) == HASH_ITEMS
    ensures Expanded([Token(4, 'Q')]) == PROPERTY_ITEMS
    ensures Expanded([Token(1, 'Q'), Token(1, 'Q')]) == UNKNOWN_ITEMS
    ensures Offset(HASH_ITEMS, 9) == 132 && Offset(PROPERTY_ITEMS, 4) == 32 && Offset(UNKNOWN_ITEMS, 2) == 16
  {
    var q3, s32, l4, x60 := Token(3, 'Q'), Token(32, 's'), Token(4, 'L'), Token(60, 'x');
    var q4, q1 := Token(4, 'Q'), Token(1, 'Q');
    hide Expanded, ItemsOf, Offset;
    HashFormat(q3, s32, l4, x60);
    PlainFormats(q4, q1);
    HashOffsets();
    PropertyOffsets();
  }

  lemma PlainFormats(q4: Token, q1: Token)
    requires q4 == Token(4, 'Q') && q1 == Token(1, 'Q')
    ensures Expanded([q4]) == PROPERTY_ITEMS && Expanded([q1, q1]) == UNKNOWN_ITEMS
  {
    hide Expanded;
    ExpandedOne(q4);
    ExpandedOne(q1);
    ExpandedConcat([q1], [q1]);
    assert [q1] + [q1] == [q1, q1];
  }

  lemma HashFormat(q3: Token, s32: Token, l4: Token, x60: Token)
    requires q3 == Token(3, 'Q') && s32 == Token(32, 's') && l4 == Token(4, 'L') && x60 == Token(60, 'x')
    ensures Expanded([q3, s32, l4, x60]) == HASH_ITEMS
  {
    hide Expanded;
    ExpandedConcat([q3], [s32]);
    assert [q3] + [s32] == [q3, s32];
    ExpandedConcat([q3, s32], [l4]);
    assert [q3, s32] + [l4] == [q3, s32, l4];
    ExpandedConcat([q3, s32, l4], [x60]);
    assert [q3, s32, l4] + [x60] == [q3, s32, l4, x60];
    ExpandedOne(q3);
    ExpandedOne(s32);
    ExpandedOne(l4);
    ExpandedOne(x60);
  }

  lemma HashOffsets()
    ensures Offset(HASH_ITEMS, 0) == 0 && Offset(HASH_ITEMS, 1) == 8 && Offset(HASH_ITEMS, 2) == 16
    ensures Offset(HASH_ITEMS, 3) == 24 && Offset(HASH_ITEMS, 4) == 56 && Offset(HASH_ITEMS, 5) == 60
    ensures Offset(HASH_ITEMS, 6) == 64 && Offset(HASH_ITEMS, 7) == 68 && Offset(HASH_ITEMS, 8) == 72
    ensures Offset(HASH_ITEMS, 9) == 132
  {
    OffsetNext(HASH_ITEMS, 0);
    OffsetNext(HASH_ITEMS, 1);
    OffsetNext(HASH_ITEMS, 2);
    OffsetNext(HASH_ITEMS, 3);
    OffsetNext(HASH_ITEMS, 4);
    OffsetNext(HASH_ITEMS, 5);
    OffsetNext(HASH_ITEMS, 6);
    OffsetNext(HASH_ITEMS, 7);
    OffsetNext(HASH_ITEMS, 8);
  }

  lemma PropertyOffsets()
    ensures Offset(PROPERTY_ITEMS, 0) == 0 && Offset(PROPERTY_ITEMS, 1) == 8 && Offset(PROPERTY_ITEMS, 2) == 16
    ensures Offset(PROPERTY_ITEMS, 3) == 24 && Offset(PROPERTY_ITEMS, 4) == 32
    ensures Offset(UNKNOWN_ITEMS, 0) == 0 && Offset(UNKNOWN_ITEMS, 1) == 8 && Offset(UNKNOWN_ITEMS, 2) == 16
  {
    OffsetNext(PROPERTY_ITEMS, 0);
    OffsetNext(PROPERTY_ITEMS, 1);
    OffsetNext(PROPERTY_ITEMS, 2);
    OffsetNext(PROPERTY_ITEMS, 3);
    OffsetNext(UNKNOWN_ITEMS, 0);
    OffsetNext(UNKNOWN_ITEMS, 1);
  }

  /** Helper.round_to_multiple. */
  function RoundTo(size: nat, page: nat): (r: nat)
    requires page > 0
    ensures size <= r < size + page
  {
    var remainder := size % page;
    if remainder == 0 then size else size + page - remainder
  }

  lemma RoundToEight(size: nat)
    ensures RoundTo(size, 8) % 8 == 0
  {
    var remainder := size % 8;
    if remainder != 0 {
      assert size + 8 - remainder == 8 * (size / 8 + 1);
    }
  }

  // ------------------------------------------------------------------ encode

  function HashPayload(d: Desc): nat
    requires d.Hash?
  {
    132 + |d.name| + |d.salt| + |d.digest| - 16
  }

  function HashValues(d: Desc): seq<Value>
    requires d.Hash?
  {
    [Number(2), Number(RoundTo(HashPayload(d), 8)), Number(d.imageSize), Str(d.algorithm),
     Number(|d.name|), Number(|d.salt|), Number(|d.digest|), Number(d.flags), Fill(0)]
  }

  function PropertyPayload(d: Desc): nat
    requires d.Property?
  {
    32 + |d.key| + |d.value| + 2 - 16
  }

  function PropertyValues(d: Desc): seq<Value>
    requires d.Property?
  {
    [Number(0), Number(RoundTo(PropertyPayload(d), 8)), Number(|d.key|), Number(|d.value|)]
  }

  function UnknownValues(tag: nat, data: seq<byte>): seq<Value>
  {
    [Number(tag), Number(|data|)]
  }

  /** What follows the fixed part of a descriptor. */
  function Tail(d: Desc): seq<byte>
  {
    match d
    case Property(key, value) => key + [0] + value + [0] + Zeros(RoundTo(PropertyPayload(d), 8) - PropertyPayload(d))
    case Hash(_, name, _, _, salt, digest) => name + salt + digest + Zeros(RoundTo(HashPayload(d), 8) - HashPayload(d))
    case Unknown(_, data) => data
  }

  function ItemsFor(d: Desc): seq<Item>
  {
    if d.Hash? then HASH_ITEMS else if d.Property? then PROPERTY_ITEMS else UNKNOWN_ITEMS
  }

  function ValuesFor(d: Desc): seq<Value>
  {
    match d
    case Hash(_, _, _, _, _, _) => HashValues(d)
    case Property(_, _) => PropertyValues(d)
    case Unknown(tag, data) => UnknownValues(tag, data)
  }

  lemma ValuesFit(d: Desc)
    requires d.Valid()
    ensures AllFit(ItemsFor(d), ValuesFor(d)) && AllExact(ItemsFor(d), ValuesFor(d))
  {
  }

  function Encode(d: Desc): seq<byte>
    requires d.Valid()
  {
    ValuesFit(d);
    PackAll(ItemsFor(d), ValuesFor(d)) + Tail(d)
  }

  function TagOf(d: Desc): nat
  {
    match d
    case Property(_, _) => 0
    case Hash(_, _, _, _, _, _) => 2
    case Unknown(tag, _) => tag
  }

  /** Whatever the type, a descriptor begins with its tag and the number of bytes that follow. */
  lemma EncodeHead(d: Desc)
    requires d.Valid()
    ensures 16 <= |Encode(d)| < B32 && PackedAt(ItemsFor(d), ValuesFor(d), Encode(d), 0)
    ensures Encode(d)[0..8] == BigEndianBytes(TagOf(d), 8)
    ensures Encode(d)[8..16] == BigEndianBytes(|Encode(d)| - 16, 8)
    ensures |Encode(d)| == Offset(ItemsFor(d), |ItemsFor(d)|) + |Tail(d)|
    ensures Encode(d)[Offset(ItemsFor(d), |ItemsFor(d)|)..] == Tail(d)
  {
    hide PackAll, Tail, BigEndianBytes;
    ValuesFit(d);
    HashOffsets();
    PropertyOffsets();
    TailLength(d);
    var items, vals := ItemsFor(d), ValuesFor(d);
    var head := PackAll(items, vals);
    assert Encode(d)[0..0 + |head|] == head && Encode(d)[|head|..] == Tail(d);
    UnpackOne(items, vals, Encode(d), 0, 0);
    UnpackOne(items, vals, Encode(d), 0, 1);
  }

  lemma TailLength(d: Desc)
    requires d.Valid()
    ensures d.Hash? ==> 132 + |Tail(d)| == 16 + RoundTo(HashPayload(d), 8) < B32
    ensures d.Property? ==> 32 + |Tail(d)| == 16 + RoundTo(PropertyPayload(d), 8) < B32
    ensures d.Unknown? ==> |Tail(d)| == |d.data|
  {
  }

  // ------------------------------------------------------------------- parse

  /** The stream constructor of a hash descriptor; lengths are added as 32-bit numbers. */
  function ParseHash(s: seq<byte>): Option<Desc>
  {
    var v := Unpacked(HASH_ITEMS, s, 0);
    var nameLen, saltLen, digestLen := Num(v[4]), Num(v[5]), Num(v[6]);
    if Num(v[0]) != 2 || RoundTo(116 + (nameLen + saltLen + digestLen) % B32, 8) != Num(v[1]) then None
    else
      Some(Hash(Num(v[7]), CString(Take(s, 132, nameLen)), Content(v[3]), Num(v[2]),
                Take(s, 132 + nameLen, saltLen), Take(s, 132 + nameLen + saltLen, digestLen)))
  }

  function ParseProperty(s: seq<byte>): Option<Desc>
  {
    var v := Unpacked(PROPERTY_ITEMS, s, 0);
    var keySize, valueSize := Num(v[2]) % B32, Num(v[3]) % B32;
    if Num(v[0]) != 0 || RoundTo((16 + keySize + 1 + valueSize + 1) % B32, 8) % B32 != Num(v[1]) then None
    else Some(Property(CString(Take(s, 32, keySize)), CString(Take(s, 32 + keySize + 1, valueSize))))
  }

  function EncodeUnknown(tag: nat, data: seq<byte>): seq<byte>
    requires tag < B64 && |data| < B64
  {
    PackAll(UNKNOWN_ITEMS, UnknownValues(tag, data)) + data
  }

  /** UnknownDescriptor.analyze. The tag is cut to 32 bits before it is looked at; hash tree,
      command line and chain descriptors are outside this model. */
  function Analyze(tag: nat, data: seq<byte>): Option<Desc>
    requires tag < B64 && |data| < B64
  {
    var t := tag % B32;
    if t == 0 then ParseProperty(EncodeUnknown(tag, data))
    else if t == 2 then ParseHash(EncodeUnknown(tag, data))
    else if t == 1 || t == 3 || t == 4 then None
    else Some(Unknown(tag, data))
  }

  datatype Record = Record(tag: nat, data: seq<byte>, next: nat)

  /** The stream constructor of UnknownDescriptor: a size that is negative as an Int, or more
      than the stream holds, throws. */
  function ReadUnknown(s: seq<byte>, o: nat): (r: Option<Record>)
    ensures r.Some? ==> r.value.tag < B64 && |r.value.data| < B32 && r.value.next == o + 16 + |r.value.data|
  {
    Powers();
    var v := Unpacked(UNKNOWN_ITEMS, s, o);
    var n := Num(v[1]) % B32;
    if n > MAX_INT || (n > 0 && o + 16 + n > |s|) then None
    else Some(Record(Num(v[0]), Take(s, o + 16, n), o + 16 + n))
  }

  datatype Numbered = Numbered(desc: Desc, sequence: int)

  /** Descriptors from offset o on, of which `current` bytes were read before, numbered from
      `count` + 1. */
  function ParseFrom(s: seq<byte>, o: nat, total: nat, current: nat, count: nat): Option<seq<Numbered>>
    decreases if current < total then total - current else 0
  {
    var read := ReadUnknown(s, o);
    if read.None? then None
    else
      var desc := Analyze(read.value.tag, read.value.data);
      var now := current + |read.value.data| + 16;
      if desc.None? || now > total then None
      else if now == total then Some([Numbered(desc.value, count + 1)])
      else
        var rest := ParseFrom(s, read.value.next, total, now, count + 1);
        if rest.None? then None else Some([Numbered(desc.value, count + 1)] + rest.value)
  }

  /** UnknownDescriptor.parseDescriptors2. */
  method ParseDescriptors2(s: seq<byte>, o: nat, total: nat) returns (r: Option<seq<Numbered>>)
    ensures r == ParseFrom(s, o, total, 0, 0)
  {
    hide Analyze, ReadUnknown;
    var ret: seq<Numbered> := [];
    var cursor, current, count := o, 0, 0;
    ghost var all := ParseFrom(s, o, total, 0, 0);
    assert all.Some? ==> [] + all.value == all.value;
    while true
      invariant 0 <= cursor && 0 <= current && 0 <= count
      invariant var rest := ParseFrom(s, cursor, total, current, count);
                ParseFrom(s, o, total, 0, 0) == if rest.None? then None else Some(ret + rest.value)
      decreases if current < total then total - current else 0
    {
      var read := ReadUnknown(s, cursor);
      if read.None? {
        return None;
      }
      count := count + 1;
      current := current + |read.value.data| + 16;
      var desc := Analyze(read.value.tag, read.value.data);
      if desc.None? {
        return None;
      }
      ghost var before := ret;
      ret := ret + [Numbered(desc.value, count)];
      if current == total {
        return Some(ret);
      } else if current > total {
        return None;
      }
      cursor := read.value.next;
      ghost var rest := ParseFrom(s, cursor, total, current, count);
      assert rest.Some? ==> before + ([Numbered(desc.value, count)] + rest.value) == ret + rest.value;
    }
  }

  // ----------------------------------------------- which streams are parsed

  /** Record after record from offset o on: each says in its bytes 8 to 16 how many bytes follow, as
      a 32-bit number that is not negative, the stream holds them, and they can be analyzed. */
  ghost predicate RecordsAt(s: seq<byte>, o: nat, sizes: seq<nat>)
    decreases |sizes|
  {
    && sizes != [] && sizes[0] == BigEndian(Take(s, o + 8, 8)) % B32 && sizes[0] < 0x8000_0000
    && (sizes[0] > 0 ==> o + 16 + sizes[0] <= |s|)
    && Analyzed(s, o, sizes[0]).Some?
    && (|sizes| > 1 ==> RecordsAt(s, o + 16 + sizes[0], sizes[1..]))
  }

  ghost function Analyzed(s: seq<byte>, o: nat, n: nat): Option<Desc>
    requires n < B32
  {
    Powers();
    Analyze(BigEndian(Take(s, o, 8)), Take(s, o + 16, n))
  }

  function TotalSize(sizes: seq<nat>): nat
  {
    if sizes == [] then 0 else 16 + sizes[0] + TotalSize(sizes[1..])
  }

  /** One record. */
  lemma ReadIsRecord(s: seq<byte>, o: nat)
    ensures var n := BigEndian(Take(s, o + 8, 8)) % B32;
            if n >= 0x8000_0000 || (n > 0 && o + 16 + n > |s|) then ReadUnknown(s, o).None?
            else ReadUnknown(s, o) == Some(Record(BigEndian(Take(s, o, 8)), Take(s, o + 16, n), o + 16 + n))
  {
    hide BigEndian, Take;
    PropertyOffsets();
  }

  /** A stream that is parsed consists of records that take exactly the size announced. */
  lemma {:induction false} ParsedRecords(s: seq<byte>, o: nat, total: nat, current: nat, count: nat) returns (sizes: seq<nat>)
    requires ParseFrom(s, o, total, current, count).Some?
    ensures RecordsAt(s, o, sizes) && current + TotalSize(sizes) == total
    ensures |ParseFrom(s, o, total, current, count).value| == |sizes|
    decreases if current < total then total - current else 0
  {
    hide Analyze, ReadUnknown, BigEndian, Take;
    ReadIsRecord(s, o);
    var n := BigEndian(Take(s, o + 8, 8)) % B32;
    var now := current + n + 16;
    if now == total {
      sizes := [n];
    } else {
      var rest := ParsedRecords(s, o + 16 + n, total, now, count + 1);
      sizes := [n] + rest;
      assert sizes[1..] == rest;
    }
  }

  /** And every such stream is parsed. */
  lemma {:induction false} RecordsParsed(s: seq<byte>, o: nat, total: nat, current: nat, count: nat, sizes: seq<nat>)
    requires RecordsAt(s, o, sizes) && current + TotalSize(sizes) == total
    ensures ParseFrom(s, o, total, current, count).Some?
    decreases |sizes|
  {
    hide Analyze, ReadUnknown, BigEndian, Take;
    ReadIsRecord(s, o);
    if |sizes| > 1 {
      RecordsParsed(s, o + 16 + sizes[0], total, current + sizes[0] + 16, count + 1, sizes[1..]);
      assert TotalSize(sizes[1..]) > 0;
    }
  }

  lemma ParsedIff(s: seq<byte>, o: nat, total: nat)
    ensures ParseFrom(s, o, total, 0, 0).Some? <==> exists sizes :: RecordsAt(s, o, sizes) && TotalSize(sizes) == total
  {
    if ParseFrom(s, o, total, 0, 0).Some? {
      var sizes := ParsedRecords(s, o, total, 0, 0);
    }
    if sizes :| RecordsAt(s, o, sizes) && TotalSize(sizes) == total {
      RecordsParsed(s, o, total, 0, 0, sizes);
    }
  }

  // ------------------------------------------------------ parse after encode

  /** Fields of a tail. */
  lemma TakeMiddle(s: seq<byte>, o: nat, a: seq<byte>, b: seq<byte>, c: seq<byte>)
    requires o + |a + b + c| == |s| && s[o..] == a + b + c
    ensures Take(s, o + |a|, |b|) == b
  {
    assert forall i :: 0 <= i < |b| ==> s[o + |a| + i] == s[o..][|a| + i] == b[i];
  }

  lemma HashTail(d: Desc, s: seq<byte>)
    requires d.Valid() && d.Hash? && |s| == 132 + |Tail(d)| && s[132..] == Tail(d)
    ensures Take(s, 132, |d.name|) == d.name && Take(s, 132 + |d.name|, |d.salt|) == d.salt
    ensures Take(s, 132 + |d.name| + |d.salt|, |d.digest|) == d.digest
  {
    hide Take, Zeros;
    var fill := Zeros(RoundTo(HashPayload(d), 8) - HashPayload(d));
    var tail := d.name + d.salt + d.digest + fill;
    assert tail == [] + d.name + (d.salt + d.digest + fill);
    TakeMiddle(s, 132, [], d.name, d.salt + d.digest + fill);
    assert tail == d.name + d.salt + (d.digest + fill);
    TakeMiddle(s, 132, d.name, d.salt, d.digest + fill);
    assert tail == (d.name + d.salt) + d.digest + fill;
    TakeMiddle(s, 132, d.name + d.salt, d.digest, fill);
  }

  lemma PropertyTail(d: Desc, s: seq<byte>)
    requires d.Valid() && d.Property? && |s| == 32 + |Tail(d)| && s[32..] == Tail(d)
    ensures Take(s, 32, |d.key|) == d.key && Take(s, 32 + |d.key| + 1, |d.value|) == d.value
  {
    hide Take, Zeros;
    var fill := Zeros(RoundTo(PropertyPayload(d), 8) - PropertyPayload(d));
    Regroup(d.key, [0], d.value, [0], fill);
    TakeMiddle(s, 32, [], d.key, [0] + d.value + [0] + fill);
    TakeMiddle(s, 32, d.key + [0], d.value, [0] + fill);
  }

  lemma Regroup(a: seq<byte>, b: seq<byte>, c: seq<byte>, d: seq<byte>, e: seq<byte>)
    ensures a + b + c + d + e == [] + a + (b + c + d + e)
    ensures a + b + c + d + e == (a + b) + c + (d + e)
  {
  }

  lemma WholeString(s: seq<byte>)
    requires NoNul(s)
    ensures CString(s) == s
  {
    CStringOfField(s, 0);
    assert s + Zeros(0) == s;
  }

  lemma Mod32(x: nat)
    requires x < B32
    ensures x % B32 == x
  {
  }

  lemma ParseHashOfEncode(d: Desc)
    requires d.Valid() && d.Hash?
    ensures ParseHash(Encode(d)) == Some(d)
  {
    hide Encode, Take, Unpacked, CString, Offset, Tail, PackedAt, AllExact, NoNul, RoundTo;
    EncodeHead(d);
    ValuesFit(d);
    TailLength(d);
    HashOffsets();
    HashTail(d, Encode(d));
    UnpackPack(HASH_ITEMS, HashValues(d), Encode(d), 0);
    WholeString(d.name);
    Mod32(|d.name| + |d.salt| + |d.digest|);
  }

  lemma ParsePropertyOfEncode(d: Desc)
    requires d.Valid() && d.Property?
    ensures ParseProperty(Encode(d)) == Some(d)
  {
    hide Encode, Take, Unpacked, CString, Offset, Tail, PackedAt, AllExact, NoNul, RoundTo;
    EncodeHead(d);
    ValuesFit(d);
    TailLength(d);
    PropertyOffsets();
    PropertyTail(d, Encode(d));
    UnpackPack(PROPERTY_ITEMS, PropertyValues(d), Encode(d), 0);
    WholeString(d.key);
    WholeString(d.value);
    Mod32(|d.key|);
    Mod32(|d.value|);
    Mod32(PropertyPayload(d));
    Mod32(RoundTo(PropertyPayload(d), 8));
  }

  lemma UnknownHead(tag: nat, data: seq<byte>)
    requires tag < B64 && |data| < B64
    ensures EncodeUnknown(tag, data) == BigEndianBytes(tag, 8) + BigEndianBytes(|data|, 8) + data
  {
    hide BigEndianBytes;
    var vals := UnknownValues(tag, data);
    assert Packed(UNKNOWN_ITEMS, vals, 1) == Packed(UNKNOWN_ITEMS, vals, 0) + BigEndianBytes(tag, 8);
    assert Packed(UNKNOWN_ITEMS, vals, 2) == Packed(UNKNOWN_ITEMS, vals, 1) + BigEndianBytes(|data|, 8);
  }

  /** The record at o has the tag and the size its first 16 bytes say. */
  lemma ReadRecord(s: seq<byte>, o: nat, tag: nat, n: nat)
    requires tag < B64 && n <= MAX_INT && o + 16 + n <= |s|
    requires s[o..o + 8] == BigEndianBytes(tag, 8) && s[o + 8..o + 16] == BigEndianBytes(n, 8)
    ensures ReadUnknown(s, o) == Some(Record(tag, s[o + 16..o + 16 + n], o + 16 + n))
  {
    hide BigEndianBytes, Offset, Unpacked;
    PropertyOffsets();
    Powers();
    BigEndianOfBytes(tag, 8);
    BigEndianOfBytes(n, 8);
    Mod32(n);
    assert Take(s, o, 8) == s[o..o + 8] && Take(s, o + 8, 8) == s[o + 8..o + 16];
    assert ValueAt(UNKNOWN_ITEMS, s, o, 0) == Number(tag) && ValueAt(UNKNOWN_ITEMS, s, o, 1) == Number(n);
  }

  /** Read back as a record, a descriptor keeps its tag and its bytes. */
  lemma RecordOfEncode(d: Desc, s: seq<byte>, o: nat)
    requires d.Valid() && o + |Encode(d)| <= |s| && s[o..o + |Encode(d)|] == Encode(d)
    ensures 16 <= |Encode(d)| < B32
    ensures ReadUnknown(s, o) == Some(Record(TagOf(d), Encode(d)[16..], o + |Encode(d)|))
    ensures EncodeUnknown(TagOf(d), Encode(d)[16..]) == Encode(d)
  {
    hide Encode, BigEndianBytes, ReadUnknown, EncodeUnknown, PackedAt, Offset, Tail;
    EncodeHead(d);
    EncodeSize(d);
    var e := Encode(d);
    SliceOfSlice(s, o, o + |e|, 0, 8);
    SliceOfSlice(s, o, o + |e|, 8, 16);
    SliceOfSlice(s, o, o + |e|, 16, |e|);
    ReadRecord(s, o, TagOf(d), |e| - 16);
    UnknownHead(TagOf(d), e[16..]);
    assert e == e[0..8] + e[8..16] + e[16..];
  }

  lemma EncodeSize(d: Desc)
    requires d.Valid()
    ensures 16 <= |Encode(d)| <= MAX_INT + 16 && TagOf(d) < B64
    ensures (d.Unknown? ==> |d.data| % 8 == 0) ==> |Encode(d)| % 8 == 0
  {
    hide Encode, Tail, PackedAt, Offset, BigEndianBytes, RoundTo;
    EncodedLength(d);
    match d
    case Hash(_, _, _, _, _, _) => RoundToEight(HashPayload(d));
    case Property(_, _) => RoundToEight(PropertyPayload(d));
    case Unknown(_, _) =>
  }

  lemma EncodedLength(d: Desc)
    requires d.Valid()
    ensures |Encode(d)| == match d
                           case Hash(_, _, _, _, _, _) => 16 + RoundTo(HashPayload(d), 8)
                           case Property(_, _) => 16 + RoundTo(PropertyPayload(d), 8)
                           case Unknown(_, data) => 16 + |data|
    ensures 16 <= |Encode(d)| < B32
  {
    hide Encode, Tail, PackedAt, Offset, BigEndianBytes, RoundTo;
    EncodeHead(d);
    TailLength(d);
    HashOffsets();
    PropertyOffsets();
  }

  /** Parsing one encoded descriptor gives it back. */
  lemma AnalyzeOfEncode(d: Desc)
    requires d.Valid() && 16 <= |Encode(d)| < B32 && TagOf(d) < B64
    requires EncodeUnknown(TagOf(d), Encode(d)[16..]) == Encode(d)
    ensures Analyze(TagOf(d), Encode(d)[16..]) == Some(d)
  {
    hide Encode, EncodeUnknown, ParseHash, ParseProperty;
    match d
    case Hash(_, _, _, _, _, _) =>
      ParseHashOfEncode(d);
    case Property(_, _) =>
      ParsePropertyOfEncode(d);
    case Unknown(tag, data) =>
      EncodedData(d);
  }

  lemma EncodedData(d: Desc)
    requires d.Valid() && d.Unknown?
    ensures |Encode(d)| >= 16 && Encode(d)[16..] == d.data
  {
    hide Offset;
    EncodeHead(d);
    PropertyOffsets();
  }

  // ------------------------------------------------------ the whole stream

  predicate AllValid(ds: seq<Desc>)
  {
    forall d :: d in ds ==> d.Valid()
  }

  function Encodings(ds: seq<Desc>): (es: seq<seq<byte>>)
    requires AllValid(ds)
    ensures |es| == |ds|
  {
    if ds == [] then [] else [Encode(ds[0])] + Encodings(ds[1..])
  }

  function NumberedFrom(ds: seq<Desc>, count: int): (ns: seq<Numbered>)
    ensures |ns| == |ds|
  {
    if ds == [] then [] else [Numbered(ds[0], count + 1)] + NumberedFrom(ds[1..], count + 1)
  }

  /** Parsing the encoded stream returns the descriptors, numbered in order. */
  lemma {:induction false} ParseOfStream(ds: seq<Desc>, s: seq<byte>, o: nat, total: nat, current: nat, count: nat)
    requires ds != [] && AllValid(ds)
    requires o + |D.Flat(Encodings(ds))| <= |s| && s[o..o + |D.Flat(Encodings(ds))|] == D.Flat(Encodings(ds))
    requires current + |D.Flat(Encodings(ds))| == total
    ensures ParseFrom(s, o, total, current, count) == Some(NumberedFrom(ds, count))
    decreases |ds|
  {
    hide Encode, ReadUnknown, Analyze, EncodeUnknown;
    var d, rest := ds[0], ds[1..];
    assert d in ds && AllValid(rest);
    var e := Encode(d);
    var tail := D.Flat(Encodings(rest));
    assert D.Flat(Encodings(ds)) == e + tail;
    assert Encodings(ds)[1..] == Encodings(rest);
    StreamParts(s, o, e, tail);
    RecordOfEncode(d, s, o);
    EncodeSize(d);
    AnalyzeOfEncode(d);
    if rest == [] {
      assert tail == [];
      assert ds == [d];
      assert [Numbered(d, count + 1)] + [] == [Numbered(d, count + 1)];
    } else {
      NotEmpty(rest);
      ParseOfStream(rest, s, o + |e|, total, current + |e|, count + 1);
    }
  }

  lemma StreamParts(s: seq<byte>, o: nat, e: seq<byte>, tail: seq<byte>)
    requires o + |e + tail| <= |s| && s[o..o + |e + tail|] == e + tail
    ensures s[o..o + |e|] == e && s[o + |e|..o + |e| + |tail|] == tail
  {
    SliceOfSlice(s, o, o + |e + tail|, 0, |e|);
    SliceOfSlice(s, o, o + |e + tail|, |e|, |e| + |tail|);
    assert (e + tail)[..|e|] == e && (e + tail)[|e|..] == tail;
  }

  lemma NotEmpty(ds: seq<Desc>)
    requires ds != [] && AllValid(ds)
    ensures |D.Flat(Encodings(ds))| >= 16
  {
    assert ds[0] in ds;
    EncodeSize(ds[0]);
  }

  /** On the verifier's side: the stream is a sequence of well-formed descriptors, provided
      that unknown payloads are a multiple of 8. */
  lemma EncodeWellFormed(d: Desc)
    requires d.Valid() && (d.Unknown? ==> |d.data| % 8 == 0)
    ensures D.WellFormed(Encode(d))
  {
    hide Encode, Tail, PackedAt, Offset, BigEndianBytes;
    EncodeHead(d);
    EncodeSize(d);
    Powers();
    BigEndianOfBytes(|Encode(d)| - 16, 8);
  }

  lemma {:induction false} EncodingsWellFormed(ds: seq<Desc>)
    requires AllValid(ds) && forall d :: d in ds && d.Unknown? ==> |d.data| % 8 == 0
    ensures D.AllWellFormed(Encodings(ds))
  {
    hide Encode, D.WellFormed;
    if ds != [] {
      assert ds[0] in ds;
      EncodeWellFormed(ds[0]);
      EncodingsWellFormed(ds[1..]);
    }
  }

  // ------------------------------------------- typed lists and re-encoding

  /** The typed lists of AuxBlob, without those of the types outside this model. */
  datatype TypedLists = TypedLists(properties: seq<Numbered>, hashes: seq<Numbered>, unknowns: seq<Numbered>)

  /** The classification in parseVbMeta. */
  method Classify(ns: seq<Numbered>) returns (lists: TypedLists)
    ensures multiset(lists.properties + lists.hashes + lists.unknowns) == multiset(ns)
    ensures forall n :: n in lists.properties ==> n.desc.Property?
    ensures forall n :: n in lists.hashes ==> n.desc.Hash?
    ensures forall n :: n in lists.unknowns ==> n.desc.Unknown?
  {
    lists := TypedLists([], [], []);
    var i := 0;
    while i < |ns|
      invariant 0 <= i <= |ns|
      invariant multiset(lists.properties) + multiset(lists.hashes) + multiset(lists.unknowns) == multiset(ns[..i])
      invariant forall n :: n in lists.properties ==> n.desc.Property?
      invariant forall n :: n in lists.hashes ==> n.desc.Hash?
      invariant forall n :: n in lists.unknowns ==> n.desc.Unknown?
    {
      assert ns[..i + 1] == ns[..i] + [ns[i]];
      match ns[i].desc {
        case Property(_, _) =>
          lists := lists.(properties := lists.properties + [ns[i]]);
        case Hash(_, _, _, _, _, _) =>
          lists := lists.(hashes := lists.hashes + [ns[i]]);
        case Unknown(_, _) =>
          lists := lists.(unknowns := lists.unknowns + [ns[i]]);
      }
      i := i + 1;
    }
    assert ns[..i] == ns;
  }

  /** Behind all elements whose number is not larger. */
  function Insert(x: Numbered, s: seq<Numbered>): seq<Numbered>
  {
    if s == [] then [x]
    else
      var k := |s| - 1;
      if s[k].sequence <= x.sequence then s + [x] else Insert(x, s[..k]) + [s[k]]
  }

  /** sortBy { it.sequence }, a stable sort. */
  function SortBySequence(s: seq<Numbered>): seq<Numbered>
  {
    if s == [] then [] else Insert(s[|s| - 1], SortBySequence(s[..|s| - 1]))
  }

  predicate Sorted(s: seq<Numbered>)
  {
    forall i, j :: 0 <= i < j < |s| ==> s[i].sequence <= s[j].sequence
  }

  predicate StrictlySorted(s: seq<Numbered>)
  {
    forall i, j :: 0 <= i < j < |s| ==> s[i].sequence < s[j].sequence
  }

  lemma {:induction false} InsertElements(x: Numbered, s: seq<Numbered>)
    ensures multiset(Insert(x, s)) == multiset(s) + multiset{x}
  {
    if s != [] {
      var k := |s| - 1;
      InsertElements(x, s[..k]);
      assert s == s[..k] + [s[k]];
    }
  }

  lemma {:induction false} InsertSorted(x: Numbered, s: seq<Numbered>)
    requires Sorted(s)
    ensures Sorted(Insert(x, s))
    ensures forall n :: n in Insert(x, s) ==> n == x || n in s
  {
    if s != [] {
      var k := |s| - 1;
      if s[k].sequence > x.sequence {
        InsertSorted(x, s[..k]);
        var front := Insert(x, s[..k]);
        forall i | 0 <= i < |front| ensures front[i].sequence <= s[k].sequence {
          assert front[i] in front;
        }
      }
    }
  }

  lemma {:induction false} SortFacts(s: seq<Numbered>)
    ensures Sorted(SortBySequence(s)) && multiset(SortBySequence(s)) == multiset(s)
  {
    hide Insert, Sorted;
    if s != [] {
      var k := |s| - 1;
      SortFacts(s[..k]);
      InsertSorted(s[k], SortBySequence(s[..k]));
      InsertElements(s[k], SortBySequence(s[..k]));
      assert s == s[..k] + [s[k]];
    } else {
      NothingSorted();
    }
  }

  lemma NothingSorted()
    ensures Sorted([])
  {
  }

  /** The last elements of two such arrangements are the same. */
  lemma SameLast(a: seq<Numbered>, b: seq<Numbered>, k: nat)
    requires StrictlySorted(a) && Sorted(b) && multiset(a) == multiset(b) && |a| == |b| == k + 1
    ensures a[k] == b[k]
  {
    assert a[k] in multiset(b) && b[k] in multiset(a);
    var i :| 0 <= i < |b| && b[i] == a[k];
    var j :| 0 <= j < |a| && a[j] == b[k];
    assert b[i].sequence <= b[k].sequence;
    assert a[k].sequence <= a[j].sequence;
    assert !(j < k);
  }

  lemma DropLast(a: seq<Numbered>, b: seq<Numbered>, k: nat)
    requires multiset(a) == multiset(b) && |a| == |b| == k + 1 && a[k] == b[k]
    ensures multiset(a[..k]) == multiset(b[..k])
  {
    assert a == a[..k] + [a[k]] && b == b[..k] + [b[k]];
    assert multiset(a) == multiset(a[..k]) + multiset{a[k]} && multiset(b) == multiset(b[..k]) + multiset{b[k]};
    assert multiset(a[..k]) == multiset(a) - multiset{a[k]} && multiset(b[..k]) == multiset(b) - multiset{b[k]};
  }

  /** A strictly sorted sequence is the only sorted arrangement of its elements. */
  lemma {:induction false} SortedUnique(a: seq<Numbered>, b: seq<Numbered>)
    requires StrictlySorted(a) && Sorted(b) && multiset(a) == multiset(b)
    ensures a == b
    decreases |a|
  {
    assert |a| == |multiset(a)| == |multiset(b)| == |b|;
    if a != [] {
      var k := |a| - 1;
      SameLast(a, b, k);
      DropLast(a, b, k);
      SortedUnique(a[..k], b[..k]);
      assert a == a[..k] + [a[k]] && b == b[..k] + [b[k]];
    }
  }

  lemma {:induction false} NumberedSorted(ds: seq<Desc>, count: int)
    ensures StrictlySorted(NumberedFrom(ds, count))
    ensures forall i :: 0 <= i < |ds| ==> NumberedFrom(ds, count)[i] == Numbered(ds[i], count + 1 + i)
  {
    if ds != [] {
      NumberedSorted(ds[1..], count + 1);
    }
  }

  predicate NumberedValid(ns: seq<Numbered>)
  {
    forall n :: n in ns ==> n.desc.Valid()
  }

  function EncodeAll(ns: seq<Numbered>): seq<byte>
    requires NumberedValid(ns)
  {
    if ns == [] then [] else EncodeAll(ns[..|ns| - 1]) + Encode(ns[|ns| - 1].desc)
  }

  /** AuxBlob.encodeDescriptors. */
  method EncodeDescriptors(lists: TypedLists) returns (ret: seq<byte>)
    requires NumberedValid(SortBySequence(lists.properties + lists.hashes + lists.unknowns))
    ensures ret == EncodeAll(SortBySequence(lists.properties + lists.hashes + lists.unknowns))
  {
    hide Encode, SortBySequence;
    var list := SortBySequence(lists.properties + lists.hashes + lists.unknowns);
    ret := [];
    var i := 0;
    while i < |list|
      invariant 0 <= i <= |list|
      invariant NumberedValid(list[..i]) && ret == EncodeAll(list[..i])
    {
      assert list[..i + 1][..i] == list[..i];
      ret := ret + Encode(list[i].desc);
      i := i + 1;
    }
    assert list[..i] == list;
  }

  lemma {:induction false} EncodeAllIsFlat(ds: seq<Desc>, count: int)
    requires AllValid(ds)
    ensures NumberedValid(NumberedFrom(ds, count)) && EncodeAll(NumberedFrom(ds, count)) == D.Flat(Encodings(ds))
  {
    hide Encode;
    NumberedSorted(ds, count);
    var ns := NumberedFrom(ds, count);
    forall n | n in ns ensures n.desc.Valid() {
      var i :| 0 <= i < |ns| && ns[i] == n;
      assert ds[i] in ds;
    }
    FlatOfPrefix(ds, ns, count, |ds|);
    assert ns[..|ds|] == ns && ds[..|ds|] == ds;
  }

  lemma {:induction false} FlatOfPrefix(ds: seq<Desc>, ns: seq<Numbered>, count: int, k: nat)
    requires AllValid(ds) && |ns| == |ds| && k <= |ds| && NumberedValid(ns)
    requires forall i :: 0 <= i < |ds| ==> ns[i].desc == ds[i]
    ensures AllValid(ds[..k]) && NumberedValid(ns[..k]) && EncodeAll(ns[..k]) == D.Flat(Encodings(ds[..k]))
  {
    hide Encode;
    if k > 0 {
      FlatOfPrefix(ds, ns, count, k - 1);
      assert ns[..k][..k - 1] == ns[..k - 1];
      assert ds[..k] == ds[..k - 1] + [ds[k - 1]];
      EncodingsAppend(ds[..k - 1], ds[k - 1]);
    }
  }

  lemma {:induction false} EncodingsAppend(ds: seq<Desc>, d: Desc)
    requires AllValid(ds) && d.Valid()
    ensures AllValid(ds + [d]) && D.Flat(Encodings(ds + [d])) == D.Flat(Encodings(ds)) + Encode(d)
  {
    hide Encode;
    if ds == [] {
      assert ds + [d] == [d];
      assert Encodings([d]) == [Encode(d)] + Encodings([]) == [Encode(d)];
      assert D.Flat([Encode(d)]) == Encode(d) + D.Flat([]) == Encode(d);
    } else {
      assert (ds + [d])[0] == ds[0] && (ds + [d])[1..] == ds[1..] + [d];
      EncodingsAppend(ds[1..], d);
      assert Encodings(ds)[1..] == Encodings(ds[1..]) && Encodings(ds + [d])[1..] == Encodings(ds[1..] + [d]);
    }
  }

  /** Parsing a stream, splitting it into typed lists and re-encoding by sequence number
      restores the stream byte for byte. */
  method Reencode(ds: seq<Desc>, s: seq<byte>, o: nat) returns (again: seq<byte>)
    requires ds != [] && AllValid(ds)
    requires o + |D.Flat(Encodings(ds))| <= |s| && s[o..o + |D.Flat(Encodings(ds))|] == D.Flat(Encodings(ds))
    ensures again == D.Flat(Encodings(ds))
  {
    hide Encode, ParseFrom;
    ParseOfStream(ds, s, o, |D.Flat(Encodings(ds))|, 0, 0);
    var parsed := ParseDescriptors2(s, o, |D.Flat(Encodings(ds))|);
    var lists := Classify(parsed.value);
    ghost var all := lists.properties + lists.hashes + lists.unknowns;
    SortFacts(all);
    NumberedSorted(ds, 0);
    SortedUnique(NumberedFrom(ds, 0), SortBySequence(all));
    EncodeAllIsFlat(ds, 0);
    again := EncodeDescriptors(lists);
  }
}
