/** Avb.packVbMeta and the blobs it puts together, against the layout checks, the hash
    comparison and the descriptor walk of the C verifier. */
module VbmetaWriter {
  import opened Words
  import opened Struct
  import opened Vbmeta
  import opened DescriptorStream
  import D = Descriptors
  import Rsa

  // ------------------------------------------------------------- the header

  const HEADER_ITEMS :=
    [Text(4), Word32, Word32, Word64, Word64, Word32, Word64, Word64, Word64, Word64, Word64,
     Word64, Word64, Word64, Word64, Word64, Word64, Word32, Pad(4), Text(47), Pad(1), Pad(80)]

  /** The offsets of the C struct are those of the format "!4s2L2QL11QL4x47sx80x". */
  lemma HeaderOffsets()
    ensures Offset(HEADER_ITEMS, 0) == 0 && Offset(HEADER_ITEMS, 1) == 4 && Offset(HEADER_ITEMS, 2) == 8
    ensures Offset(HEADER_ITEMS, 3) == 12 && Offset(HEADER_ITEMS, 4) == 20 && Offset(HEADER_ITEMS, 5) == 28
    ensures Offset(HEADER_ITEMS, 6) == 32 && Offset(HEADER_ITEMS, 7) == 40 && Offset(HEADER_ITEMS, 8) == 48
    ensures Offset(HEADER_ITEMS, 9) == 56 && Offset(HEADER_ITEMS, 10) == 64 && Offset(HEADER_ITEMS, 11) == 72
    ensures Offset(HEADER_ITEMS, 12) == 80 && Offset(HEADER_ITEMS, 13) == 88 && Offset(HEADER_ITEMS, 14) == 96
    ensures Offset(HEADER_ITEMS, 15) == 104 && Offset(HEADER_ITEMS, 16) == 112 && Offset(HEADER_ITEMS, 17) == 120
    ensures Offset(HEADER_ITEMS, 18) == 124 && Offset(HEADER_ITEMS, 19) == 128 && Offset(HEADER_ITEMS, 20) == 175
    ensures Offset(HEADER_ITEMS, 21) == 176 && Offset(HEADER_ITEMS, 22) == HEADER_SIZE
  {
    hide Offset;
    OffsetZero(HEADER_ITEMS);
    OffsetNext(HEADER_ITEMS, 0);
    OffsetNext(HEADER_ITEMS, 1);
    OffsetNext(HEADER_ITEMS, 2);
    OffsetNext(HEADER_ITEMS, 3);
    OffsetNext(HEADER_ITEMS, 4);
    OffsetNext(HEADER_ITEMS, 5);
    OffsetNext(HEADER_ITEMS, 6);
    OffsetNext(HEADER_ITEMS, 7);
    OffsetNext(HEADER_ITEMS, 8);
    OffsetNext(HEADER_ITEMS, 9);
    OffsetNext(HEADER_ITEMS, 10);
    OffsetNext(HEADER_ITEMS, 11);
    OffsetNext(HEADER_ITEMS, 12);
    OffsetNext(HEADER_ITEMS, 13);
    OffsetNext(HEADER_ITEMS, 14);
    OffsetNext(HEADER_ITEMS, 15);
    OffsetNext(HEADER_ITEMS, 16);
    OffsetNext(HEADER_ITEMS, 17);
    OffsetNext(HEADER_ITEMS, 18);
    OffsetNext(HEADER_ITEMS, 19);
    OffsetNext(HEADER_ITEMS, 20);
    OffsetNext(HEADER_ITEMS, 21);
  }

  lemma OffsetZero(items: seq<Item>)
    ensures Offset(items, 0) == 0
  {
  }

  /** That format, expanded. */
  lemma HeaderFormat()
    ensures Expanded([Token(4, 's'), Token(2, 'L'), Token(2, 'Q'), Token(1, 'L'), Token(11, 'Q'), Token(1, 'L'),
                      Token(4, 'x'), Token(47, 's'), Token(1, 'x'), Token(80, 'x')]) == HEADER_ITEMS
  {
    hide Expanded, ItemsOf;
    HeaderFormatFront();
    HeaderFormatBack();
    var front := [Token(4, 's'), Token(2, 'L'), Token(2, 'Q'), Token(1, 'L'), Token(11, 'Q')];
    var back := [Token(1, 'L'), Token(4, 'x'), Token(47, 's'), Token(1, 'x'), Token(80, 'x')];
    ExpandedConcat(front, back);
    assert front + back == [Token(4, 's'), Token(2, 'L'), Token(2, 'Q'), Token(1, 'L'), Token(11, 'Q'), Token(1, 'L'),
                            Token(4, 'x'), Token(47, 's'), Token(1, 'x'), Token(80, 'x')];
  }

  lemma HeaderFormatFront()
    ensures Expanded([Token(4, 's'), Token(2, 'L'), Token(2, 'Q'), Token(1, 'L'), Token(11, 'Q')])
         == [Text(4), Word32, Word32, Word64, Word64, Word32, Word64, Word64, Word64, Word64, Word64,
             Word64, Word64, Word64, Word64, Word64, Word64]
  {
    hide Expanded;
    var a, b, c, d, e := Token(4, 's'), Token(2, 'L'), Token(2, 'Q'), Token(1, 'L'), Token(11, 'Q');
    ExpandedOne(a);
    ExpandedConcat([a], [b]);
    ExpandedOne(b);
    assert [a] + [b] == [a, b];
    ExpandedConcat([a, b], [c]);
    ExpandedOne(c);
    assert [a, b] + [c] == [a, b, c];
    ExpandedConcat([a, b, c], [d]);
    ExpandedOne(d);
    assert [a, b, c] + [d] == [a, b, c, d];
    ExpandedConcat([a, b, c, d], [e]);
    ExpandedOne(e);
    assert [a, b, c, d] + [e] == [a, b, c, d, e];
  }

  lemma HeaderFormatBack()
    ensures Expanded([Token(1, 'L'), Token(4, 'x'), Token(47, 's'), Token(1, 'x'), Token(80, 'x')])
         == [Word32, Pad(4), Text(47), Pad(1), Pad(80)]
  {
    hide Expanded;
    var a, b, c, d, e := Token(1, 'L'), Token(4, 'x'), Token(47, 's'), Token(1, 'x'), Token(80, 'x');
    ExpandedOne(a);
    ExpandedConcat([a], [b]);
    ExpandedOne(b);
    assert [a] + [b] == [a, b];
    ExpandedConcat([a, b], [c]);
    ExpandedOne(c);
    assert [a, b] + [c] == [a, b, c];
    ExpandedConcat([a, b, c], [d]);
    ExpandedOne(d);
    assert [a, b, c] + [d] == [a, b, c, d];
    ExpandedConcat([a, b, c, d], [e]);
    ExpandedOne(e);
    assert [a, b, c, d] + [e] == [a, b, c, d, e];
  }

  /** The arguments of pack in Header.encode; the release string is at most 47 bytes. */
  function HeaderValues(h: Header): seq<Value>
  {
    [Str(MAGIC), Number(h.requiredMajor), Number(h.requiredMinor), Number(h.authSize), Number(h.auxSize),
     Number(h.algorithm), Number(h.hashOffset), Number(h.hashSize), Number(h.signatureOffset), Number(h.signatureSize),
     Number(h.publicKeyOffset), Number(h.publicKeySize), Number(h.metadataOffset), Number(h.metadataSize),
     Number(h.descriptorsOffset), Number(h.descriptorsSize), Number(h.rollbackIndex), Number(h.flags),
     Fill(0), Str(h.releaseString), Fill(0), Fill(0)]
  }

  lemma HeaderFits(h: Header)
    ensures AllFit(HEADER_ITEMS, HeaderValues(h)) <==> |h.releaseString| <= 47
  {
    assert Fits(HEADER_ITEMS[19], HeaderValues(h)[19]) <==> |h.releaseString| <= 47;
  }

  function EncodeHeader(h: Header): (s: seq<byte>)
    requires |h.releaseString| <= 47
    ensures |s| == HEADER_SIZE
  {
    HeaderFits(h);
    HeaderOffsets();
    PackAll(HEADER_ITEMS, HeaderValues(h))
  }

  /** What the verifier sees of a header that was written. */
  function AsRead(h: Header): Header
    requires |h.releaseString| <= 47
  {
    h.(magic := MAGIC, releaseString := h.releaseString + Zeros(48 - |h.releaseString|))
  }

  /** The number in item k of the header. */
  function FieldNumber(h: Header, k: nat): nat
  {
    match k
    case 1 => h.requiredMajor
    case 2 => h.requiredMinor
    case 3 => h.authSize
    case 4 => h.auxSize
    case 5 => h.algorithm
    case 6 => h.hashOffset
    case 7 => h.hashSize
    case 8 => h.signatureOffset
    case 9 => h.signatureSize
    case 10 => h.publicKeyOffset
    case 11 => h.publicKeySize
    case 12 => h.metadataOffset
    case 13 => h.metadataSize
    case 14 => h.descriptorsOffset
    case 15 => h.descriptorsSize
    case 16 => h.rollbackIndex
    case 17 => h.flags
    case _ => 0
  }

  lemma HeaderValue(h: Header, k: nat)
    requires 1 <= k <= 17
    ensures HeaderValues(h)[k] == Number(FieldNumber(h, k))
  {
  }

  /** A number field of the header, read at its offset. */
  lemma HeaderWord(h: Header, s: seq<byte>, k: nat, o: nat, n: nat)
    requires Packs(h, s) && 1 <= k <= 17 && o == HeaderOffset(k) && n == HeaderFieldSize(k)
    ensures o + n <= |s| && BigEndian(s[o..o + n]) == FieldNumber(h, k)
  {
    hide Offset, BigEndian, BigEndianBytes, PackAll, FieldNumber;
    HeaderOffsets();
    HeaderValue(h, k);
    HeaderItem(k);
    hide HeaderValues;
    var vals := HeaderValues(h);
    UnpackOne(HEADER_ITEMS, vals, s, 0, k);
    ItemInside(HEADER_ITEMS, k);
    DecodedEncoded(HEADER_ITEMS[k], vals[k]);
  }

  /** s begins with the packed header. */
  ghost predicate Packs(h: Header, s: seq<byte>)
  {
    PackedAt(HEADER_ITEMS, HeaderValues(h), s, 0)
  }

  lemma HeaderItem(k: nat)
    requires 1 <= k <= 17
    ensures HEADER_ITEMS[k] == if HeaderFieldSize(k) == 4 then Word32 else Word64
  {
  }

  function HeaderFieldSize(k: nat): nat
  {
    if k == 1 || k == 2 || k == 5 || k == 17 then 4 else 8
  }

  /** The offsets of the number fields in the C struct. */
  function HeaderOffset(k: nat): nat
  {
    if k <= 3 then 4 * k
    else if k == 4 then 20
    else if k == 5 then 28
    else if k <= 17 then 32 + 8 * (k - 6)
    else HEADER_SIZE
  }

  lemma {:induction false} ItemInside(items: seq<Item>, k: nat)
    requires k < |items|
    ensures Offset(items, k) + items[k].Size() <= Offset(items, |items|)
  {
    OffsetGrows(items, k + 1, |items|);
  }

  lemma {:induction false} OffsetGrows(items: seq<Item>, j: nat, k: nat)
    requires j <= k <= |items|
    ensures Offset(items, j) <= Offset(items, k)
  {
    if j < k {
      OffsetGrows(items, j, k - 1);
    }
  }

  lemma HeaderMagic(h: Header, s: seq<byte>)
    requires PackedAt(HEADER_ITEMS, HeaderValues(h), s, 0)
    ensures |s| >= HEADER_SIZE && s[0..4] == MAGIC
  {
    hide Offset, PackAll, Encoded;
    HeaderOffsets();
    UnpackOne(HEADER_ITEMS, HeaderValues(h), s, 0, 0);
    TextField(4, MAGIC);
  }

  lemma TextField(n: nat, text: seq<byte>)
    requires |text| <= n
    ensures Encoded(Text(n), Str(text)) == text + Zeros(n - |text|)
    ensures |text| == n ==> Encoded(Text(n), Str(text)) == text
  {
  }

  lemma HeaderRelease(h: Header, s: seq<byte>)
    requires |h.releaseString| <= 47 && PackedAt(HEADER_ITEMS, HeaderValues(h), s, 0)
    ensures |s| >= HEADER_SIZE && s[128..176] == h.releaseString + Zeros(48 - |h.releaseString|)
  {
    hide Offset, PackAll, Encoded;
    HeaderOffsets();
    UnpackOne(HEADER_ITEMS, HeaderValues(h), s, 0, 19);
    UnpackOne(HEADER_ITEMS, HeaderValues(h), s, 0, 20);
    TextField(47, h.releaseString);
    assert Encoded(Pad(1), Fill(0)) == [0] by {
      OnePad();
    }
    JoinRelease(s, h.releaseString);
  }

  lemma OnePad()
    ensures Encoded(Pad(1), Fill(0)) == [0]
  {
  }

  lemma JoinRelease(s: seq<byte>, text: seq<byte>)
    requires |s| >= 176 && |text| <= 47 && s[128..175] == text + Zeros(47 - |text|) && s[175..176] == [0]
    ensures s[128..176] == text + Zeros(48 - |text|)
  {
    assert s[128..176] == s[128..175] + s[175..176];
    assert Zeros(48 - |text|) == Zeros(47 - |text|) + [0];
  }

  lemma HeaderWordsFront(h: Header, s: seq<byte>)
    requires Packs(h, s) && |s| >= HEADER_SIZE
    ensures BigEndian(s[4..8]) == h.requiredMajor && BigEndian(s[8..12]) == h.requiredMinor
    ensures BigEndian(s[12..20]) == h.authSize && BigEndian(s[20..28]) == h.auxSize && BigEndian(s[28..32]) == h.algorithm
    ensures BigEndian(s[32..40]) == h.hashOffset && BigEndian(s[40..48]) == h.hashSize
    ensures BigEndian(s[48..56]) == h.signatureOffset && BigEndian(s[56..64]) == h.signatureSize
  {
    hide BigEndian, Packs;
    assert BigEndian(s[4..8]) == h.requiredMajor by {
      HeaderWord(h, s, 1, 4, 4);
    }
    assert BigEndian(s[8..12]) == h.requiredMinor by {
      HeaderWord(h, s, 2, 8, 4);
    }
    assert BigEndian(s[12..20]) == h.authSize by {
      HeaderWord(h, s, 3, 12, 8);
    }
    assert BigEndian(s[20..28]) == h.auxSize by {
      HeaderWord(h, s, 4, 20, 8);
    }
    assert BigEndian(s[28..32]) == h.algorithm by {
      HeaderWord(h, s, 5, 28, 4);
    }
    assert BigEndian(s[32..40]) == h.hashOffset by {
      HeaderWord(h, s, 6, 32, 8);
    }
    assert BigEndian(s[40..48]) == h.hashSize by {
      HeaderWord(h, s, 7, 40, 8);
    }
    assert BigEndian(s[48..56]) == h.signatureOffset by {
      HeaderWord(h, s, 8, 48, 8);
    }
    assert BigEndian(s[56..64]) == h.signatureSize by {
      HeaderWord(h, s, 9, 56, 8);
    }
  }

  lemma HeaderWordsBack(h: Header, s: seq<byte>)
    requires Packs(h, s) && |s| >= HEADER_SIZE
    ensures BigEndian(s[64..72]) == h.publicKeyOffset && BigEndian(s[72..80]) == h.publicKeySize
    ensures BigEndian(s[80..88]) == h.metadataOffset && BigEndian(s[88..96]) == h.metadataSize
  {
    hide BigEndian, Packs;
    assert BigEndian(s[64..72]) == h.publicKeyOffset by {
      HeaderWord(h, s, 10, 64, 8);
    }
    assert BigEndian(s[72..80]) == h.publicKeySize by {
      HeaderWord(h, s, 11, 72, 8);
    }
    assert BigEndian(s[80..88]) == h.metadataOffset by {
      HeaderWord(h, s, 12, 80, 8);
    }
    assert BigEndian(s[88..96]) == h.metadataSize by {
      HeaderWord(h, s, 13, 88, 8);
    }
  }

  lemma HeaderWordsEnd(h: Header, s: seq<byte>)
    requires Packs(h, s) && |s| >= HEADER_SIZE
    ensures BigEndian(s[96..104]) == h.descriptorsOffset && BigEndian(s[104..112]) == h.descriptorsSize
    ensures BigEndian(s[112..120]) == h.rollbackIndex && BigEndian(s[120..124]) == h.flags
  {
    hide BigEndian, Packs;
    assert BigEndian(s[96..104]) == h.descriptorsOffset by {
      HeaderWord(h, s, 14, 96, 8);
    }
    assert BigEndian(s[104..112]) == h.descriptorsSize by {
      HeaderWord(h, s, 15, 104, 8);
    }
    assert BigEndian(s[112..120]) == h.rollbackIndex by {
      HeaderWord(h, s, 16, 112, 8);
    }
    assert BigEndian(s[120..124]) == h.flags by {
      HeaderWord(h, s, 17, 120, 4);
    }
  }

  /** The verifier's reading of a written header: both sides agree on every field. */
  lemma HeaderRoundTrip(h: Header, s: seq<byte>)
    requires |h.releaseString| <= 47 && PackedAt(HEADER_ITEMS, HeaderValues(h), s, 0)
    ensures |s| >= HEADER_SIZE && HeaderOf(s) == AsRead(h)
  {
    hide BigEndian, PackedAt;
    HeaderMagic(h, s);
    HeaderRelease(h, s);
    HeaderWordsFront(h, s);
    HeaderWordsBack(h, s);
    HeaderWordsEnd(h, s);
  }

  // ------------------------------------------------------- the three blobs

  /** The table of algorithms: sizes of hash, signature and encoded key. */
  function HashBytes(algorithm: nat): nat
  {
    if algorithm == 0 then 0 else HashLength(algorithm)
  }

  function SignatureBytes(algorithm: nat): nat
  {
    if algorithm == 0 then 0 else RsaBytes(algorithm)
  }

  function KeyBytes(algorithm: nat): nat
  {
    if algorithm == 0 then 0 else 8 + 2 * RsaBytes(algorithm)
  }

  function AuthSize(algorithm: nat): nat
  {
    RoundTo(HashBytes(algorithm) + SignatureBytes(algorithm), 64)
  }

  /** Filled with zeros to a multiple of 64. */
  function Filled(s: seq<byte>): (r: seq<byte>)
    ensures |r| == RoundTo(|s|, 64)
  {
    s + Zeros(RoundTo(|s|, 64) - |s|)
  }

  lemma RoundTo64(size: nat)
    ensures RoundTo(size, 64) % 64 == 0
  {
    var remainder := size % 64;
    if remainder != 0 {
      assert size + 64 - remainder == 64 * (size / 64 + 1);
    }
  }

  /** The header fields packVbMeta assigns. */
  function Assigned(h: Header, descSize: nat, keySize: nat, pkmdSize: nat): Header
    requires h.algorithm <= 6 && descSize + keySize + pkmdSize < MAX_INT
  {
    h.(auxSize := RoundTo(descSize + keySize + pkmdSize, 64), authSize := AuthSize(h.algorithm),
       descriptorsOffset := 0, descriptorsSize := descSize,
       hashOffset := 0, hashSize := HashBytes(h.algorithm),
       signatureOffset := HashBytes(h.algorithm), signatureSize := SignatureBytes(h.algorithm),
       publicKeyOffset := descSize, publicKeySize := keySize,
       metadataSize := pkmdSize, metadataOffset := descSize + keySize)
  }

  /** A blob of packVbMeta: header, authentication block, auxiliary block. */
  datatype Blob = Blob(header: Header, hash: seq<byte>, signature: seq<byte>, descs: seq<byte>, key: seq<byte>, pkmd: seq<byte>)
  {
    /** The sizes are those of the algorithm, a signature and key of the right size included. */
    predicate Valid()
    {
      && header.algorithm <= 6 && |header.releaseString| <= 47
      && |descs| + |key| + |pkmd| < MAX_INT
      && |hash| == HashBytes(header.algorithm) && |signature| == SignatureBytes(header.algorithm)
      && |key| == KeyBytes(header.algorithm)
    }

    function FullHeader(): Header
      requires Valid()
    {
      Assigned(header, |descs|, |key|, |pkmd|)
    }

    function HeaderBlob(): (s: seq<byte>)
      requires Valid()
      ensures |s| == HEADER_SIZE
    {
      EncodeHeader(FullHeader())
    }

    function AuthBlob(): (s: seq<byte>)
      requires Valid()
      ensures |s| == AuthSize(header.algorithm)
    {
      Filled(hash + signature)
    }

    function AuxBlob(): (s: seq<byte>)
      requires Valid()
      ensures |s| == RoundTo(|descs| + |key| + |pkmd|, 64)
    {
      Filled(descs + key + pkmd)
    }

    function Bytes(): (s: seq<byte>)
      requires Valid()
      ensures |s| == HEADER_SIZE + AuthSize(header.algorithm) + RoundTo(|descs| + |key| + |pkmd|, 64)
    {
      HeaderBlob() + AuthBlob() + AuxBlob()
    }
  }

  /** The blocks of an image that begins with a blob. */
  lemma ImageParts(b: Blob, image: seq<byte>)
    requires b.Valid() && |image| >= |b.Bytes()| && image[..|b.Bytes()|] == b.Bytes()
    ensures image[..HEADER_SIZE] == b.HeaderBlob()
    ensures image[HEADER_SIZE..HEADER_SIZE + |b.AuthBlob()|] == b.AuthBlob()
    ensures image[HEADER_SIZE + |b.AuthBlob()|..HEADER_SIZE + |b.AuthBlob()| + |b.AuxBlob()|] == b.AuxBlob()
  {
    hide Blob.HeaderBlob, Blob.AuthBlob, Blob.AuxBlob;
    ThreeParts(image, b.HeaderBlob(), b.AuthBlob(), b.AuxBlob());
  }

  lemma ThreeParts(s: seq<byte>, a: seq<byte>, b: seq<byte>, c: seq<byte>)
    requires |s| >= |a + b + c| && s[..|a + b + c|] == a + b + c
    ensures s[..|a|] == a && s[|a|..|a| + |b|] == b && s[|a| + |b|..|a| + |b| + |c|] == c
  {
    var n := |a + b + c|;
    assert forall i :: 0 <= i < n ==> s[i] == s[..n][i] == (a + b + c)[i];
  }

  lemma ImageHeader(b: Blob, image: seq<byte>)
    requires b.Valid() && |image| >= |b.Bytes()| && image[..|b.Bytes()|] == b.Bytes()
    ensures |image| >= HEADER_SIZE && HeaderOf(image) == AsRead(b.FullHeader())
  {
    hide Offset, Blob.AuthBlob, Blob.AuxBlob, HeaderOf;
    ImageParts(b, image);
    var h := b.FullHeader();
    HeaderFits(h);
    HeaderOffsets();
    assert image[0..HEADER_SIZE] == image[..HEADER_SIZE];
    HeaderRoundTrip(h, image);
  }

  /** Every layout check of the verifier passes, whatever follows the blob. */
  lemma WrittenLayout(b: Blob, image: seq<byte>)
    requires b.Valid() && |image| >= |b.Bytes()| && image[..|b.Bytes()|] == b.Bytes()
    requires b.header.requiredMajor == VERSION_MAJOR && b.header.requiredMinor <= VERSION_MINOR
    ensures LayoutOf(image) == if b.header.algorithm == 0 then Unsigned else Signed
  {
    hide HeaderOf, RoundTo;
    ImageHeader(b, image);
    RoundTo64(|b.descs| + |b.key| + |b.pkmd|);
    RoundTo64(HashBytes(b.header.algorithm) + SignatureBytes(b.header.algorithm));
  }

  /** Slices of a block are where the header says. */
  lemma BlockSlice(image: seq<byte>, o: nat, block: seq<byte>, i: nat, j: nat)
    requires o + |block| <= |image| && image[o..o + |block|] == block && i <= j <= |block|
    ensures image[o + i..o + j] == block[i..j]
  {
    SliceOfSlice(image, o, o + |block|, i, j);
  }

  lemma FilledParts(a: seq<byte>, b: seq<byte>, c: seq<byte>)
    ensures |Filled(a + b + c)| >= |a| + |b| + |c|
    ensures Filled(a + b + c)[0..|a|] == a
    ensures Filled(a + b + c)[|a|..|a| + |b|] == b
    ensures Filled(a + b + c)[|a| + |b|..|a| + |b| + |c|] == c
  {
    var fill := Zeros(RoundTo(|a + b + c|, 64) - |a + b + c|);
    assert Filled(a + b + c) == a + b + c + fill;
    assert (a + b + c + fill)[..|a + b + c|] == a + b + c;
    ThreeParts(Filled(a + b + c), a, b, c);
  }

  lemma AuthContents(b: Blob, image: seq<byte>)
    requires b.Valid() && |image| >= |b.Bytes()| && image[..|b.Bytes()|] == b.Bytes()
    ensures image[HEADER_SIZE..HEADER_SIZE + |b.hash|] == b.hash
    ensures image[HEADER_SIZE + |b.hash|..HEADER_SIZE + |b.hash| + |b.signature|] == b.signature
  {
    ImageParts(b, image);
    var auth := b.AuthBlob();
    assert b.hash + b.signature + [] == b.hash + b.signature;
    FilledParts(b.hash, b.signature, []);
    hide Blob.AuthBlob, Blob.Bytes, Filled, Blob.Valid;
    BlockSlice(image, HEADER_SIZE, auth, 0, |b.hash|);
    BlockSlice(image, HEADER_SIZE, auth, |b.hash|, |b.hash| + |b.signature|);
  }

  lemma AuxContents(b: Blob, image: seq<byte>)
    requires b.Valid() && |image| >= |b.Bytes()| && image[..|b.Bytes()|] == b.Bytes()
    ensures var n := HEADER_SIZE + AuthSize(b.header.algorithm);
            && image[n..n + |b.descs|] == b.descs
            && image[n + |b.descs|..n + |b.descs| + |b.key|] == b.key
            && image[n + |b.descs| + |b.key|..n + |b.descs| + |b.key| + |b.pkmd|] == b.pkmd
  {
    hide Blob.AuxBlob, Blob.Bytes, Blob.HeaderBlob, Blob.AuthBlob, AuthSize, RoundTo;
    ImageParts(b, image);
    AuxSlices(b);
    hide Blob.Valid;
    var n := HEADER_SIZE + |b.AuthBlob()|;
    BlockSlice(image, n, b.AuxBlob(), 0, |b.descs|);
    BlockSlice(image, n, b.AuxBlob(), |b.descs|, |b.descs| + |b.key|);
    BlockSlice(image, n, b.AuxBlob(), |b.descs| + |b.key|, |b.descs| + |b.key| + |b.pkmd|);
  }

  lemma AuxSlices(b: Blob)
    requires b.Valid()
    ensures var aux := b.AuxBlob();
            && |aux| >= |b.descs| + |b.key| + |b.pkmd|
            && aux[0..|b.descs|] == b.descs && aux[|b.descs|..|b.descs| + |b.key|] == b.key
            && aux[|b.descs| + |b.key|..|b.descs| + |b.key| + |b.pkmd|] == b.pkmd
  {
    hide Filled;
    FilledParts(b.descs, b.key, b.pkmd);
  }

  /** Hash, signature and key are found again, and the hash covers header and auxiliary block. */
  lemma WrittenContents(b: Blob, image: seq<byte>)
    requires b.Valid() && |image| >= |b.Bytes()| && image[..|b.Bytes()|] == b.Bytes()
    requires LayoutOf(image) == Signed && b.header.algorithm > 0
    ensures StoredHash(image) == b.hash && Signature(image) == b.signature && PublicKey(image) == b.key
    ensures Covered(image) == b.HeaderBlob() + b.AuxBlob()
  {
    hide HeaderOf, LayoutOf, RoundTo, Blob.HeaderBlob, Blob.AuxBlob, Blob.AuthBlob, Blob.Bytes;
    ImageHeader(b, image);
    ImageParts(b, image);
    SignedFits(image);
    AuthContents(b, image);
    AuxContents(b, image);
  }

  /** What the verifier reads of the fields the caller chose: they are those of the header given, and
      the metadata is the metadata given. */
  ghost predicate ReadsAsGiven(image: seq<byte>, given: Header, pkmd: seq<byte>)
  {
    && |image| >= HEADER_SIZE
    && (forall behind: nat -> byte :: Metadata(Memory(image, behind)) == if pkmd == [] then None else Some(pkmd))
    && var h := HeaderOf(image);
       && h.magic == [0x41, 0x56, 0x42, 0x30]
       && h.rollbackIndex == given.rollbackIndex && h.flags == given.flags && h.algorithm == given.algorithm
       && h.requiredMajor == given.requiredMajor && h.requiredMinor == given.requiredMinor
       && |h.releaseString| == 48 >= |given.releaseString| && h.releaseString[..|given.releaseString|] == given.releaseString
       && forall i :: |given.releaseString| <= i < 48 ==> h.releaseString[i] == 0
  }

  /** What was given is what is read. */
  lemma WrittenAsGiven(b: Blob, image: seq<byte>)
    requires b.Valid() && |image| >= |b.Bytes()| && image[..|b.Bytes()|] == b.Bytes()
    ensures ReadsAsGiven(image, b.header, b.pkmd)
  {
    hide HeaderOf, RoundTo, Blob.HeaderBlob, Blob.AuxBlob, Blob.AuthBlob, Blob.Bytes;
    ImageHeader(b, image);
    AuxContents(b, image);
    assert (b.header.releaseString + Zeros(48 - |b.header.releaseString|))[..|b.header.releaseString|] == b.header.releaseString;
  }

  lemma SignedFits(image: seq<byte>)
    requires LayoutOf(image) == Signed || LayoutOf(image) == Unsigned
    ensures |image| >= HEADER_SIZE && BlocksFit(HeaderOf(image), |image|) && RegionsFit(HeaderOf(image))
  {
  }

  /** The verifier's walk visits exactly the encoded descriptors, in order. */
  lemma WrittenDescriptors(b: Blob, mem: Memory, ds: seq<Desc>)
    requires b.Valid() && |mem.bytes| >= |b.Bytes()| && mem.bytes[..|b.Bytes()|] == b.Bytes() && |mem.bytes| < B64
    requires LayoutOf(mem.bytes) == Signed || LayoutOf(mem.bytes) == Unsigned
    requires AllValid(ds) && b.descs == D.Flat(Encodings(ds)) && forall d :: d in ds && d.Unknown? ==> |d.data| % 8 == 0
    ensures D.HasRegion(mem.bytes) && D.Consumed(mem)
    ensures D.AllDescriptors(mem) == D.Offsets(HEADER_SIZE + AuthSize(b.header.algorithm), Encodings(ds))
  {
    hide HeaderOf, LayoutOf, RoundTo, Blob.Bytes, D.Walk, D.Flat, Encodings, D.Offsets, Blob.AuxBlob;
    ImageHeader(b, mem.bytes);
    AuxContents(b, mem.bytes);
    SignedFits(mem.bytes);
    MagicOf(mem.bytes);
    EncodingsWellFormed(ds);
    var start := HEADER_SIZE + AuthSize(b.header.algorithm);
    D.WalkOfStream(mem, start, start + |b.descs|, start, Encodings(ds));
    Mod64(start);
    Mod64(start + |b.descs|);
  }

  lemma MagicOf(image: seq<byte>)
    requires LayoutOf(image) == Signed || LayoutOf(image) == Unsigned
    ensures |image| >= HEADER_SIZE && HeaderOf(image).magic == MAGIC
  {
  }

  lemma Mod64(x: nat)
    requires x < B64
    ensures x % B64 == x
  {
  }

  // ------------------------------------------- hash descriptors on both sides

  /** The fields of an encoded hash descriptor at the offsets of the C struct. */
  lemma HashNumbers(d: Desc)
    requires d.Valid() && d.Hash?
    ensures |Encode(d)| >= 132
    ensures BigEndian(Encode(d)[16..24]) == d.imageSize && BigEndian(Encode(d)[68..72]) == d.flags
    ensures BigEndian(Encode(d)[56..60]) == |d.name| && BigEndian(Encode(d)[60..64]) == |d.salt|
    ensures BigEndian(Encode(d)[64..68]) == |d.digest|
    ensures Encode(d)[24..56] == d.algorithm + Zeros(32 - |d.algorithm|)
  {
    hide Encode, Offset, BigEndian, BigEndianBytes, PackedAt, Tail, RoundTo;
    EncodeHead(d);
    HashOffsets();
    HashNumber(d, 2);
    HashNumber(d, 4);
    HashNumber(d, 5);
    HashNumber(d, 6);
    HashNumber(d, 7);
    UnpackOne(HASH_ITEMS, HashValues(d), Encode(d), 0, 3);
    TextField(32, d.algorithm);
  }

  lemma HashNumber(d: Desc, k: nat)
    requires d.Valid() && d.Hash? && k in {2, 4, 5, 6, 7} && PackedAt(HASH_ITEMS, HashValues(d), Encode(d), 0)
    ensures var o, n := Offset(HASH_ITEMS, k), HASH_ITEMS[k].Size();
            o + n <= |Encode(d)| && BigEndian(Encode(d)[o..o + n]) == Num(HashValues(d)[k])
  {
    hide Encode, Offset, BigEndian, BigEndianBytes, PackAll, Tail, RoundTo;
    ValuesFit(d);
    UnpackOne(HASH_ITEMS, HashValues(d), Encode(d), 0, k);
    ItemInside(HASH_ITEMS, k);
    DecodedEncoded(HASH_ITEMS[k], HashValues(d)[k]);
  }

  /** The verifier takes a written hash descriptor apart into what was put in. */
  lemma VerifierReadsHash(d: Desc, mem: Memory, p: nat)
    requires d.Valid() && d.Hash?
    requires p + |Encode(d)| <= |mem.bytes| && mem.bytes[p..p + |Encode(d)|] == Encode(d)
    ensures D.ParseHash(mem, p) == Some(D.HashDescriptor(d.imageSize, d.algorithm + Zeros(32 - |d.algorithm|),
                                                         d.name, d.salt, d.digest, d.flags))
  {
    hide Encode, Offset, BigEndian, BigEndianBytes, PackedAt, Tail, Take, RoundTo, Memory.Slice;
    var e, n, m := Encode(d), |d.name|, |d.salt|;
    HashHead(d);
    HashNumbers(d);
    SliceAt(mem, p, e, 0, 8);
    SliceAt(mem, p, e, 8, 8);
    SliceAt(mem, p, e, 16, 8);
    SliceAt(mem, p, e, 24, 32);
    SliceAt(mem, p, e, 56, 4);
    SliceAt(mem, p, e, 60, 4);
    SliceAt(mem, p, e, 64, 4);
    SliceAt(mem, p, e, 68, 4);
    SliceAt(mem, p, e, 132, n);
    SliceAt(mem, p, e, 132 + n, m);
    SliceAt(mem, p, e, 132 + n + m, |d.digest|);
  }

  lemma HashHead(d: Desc)
    requires d.Valid() && d.Hash?
    ensures |Encode(d)| >= 132 + |d.name| + |d.salt| + |d.digest| && |Encode(d)| % 8 == 0
    ensures BigEndian(Encode(d)[0..8]) == 2 && BigEndian(Encode(d)[8..16]) == |Encode(d)| - 16
    ensures Take(Encode(d), 132, |d.name|) == d.name && Take(Encode(d), 132 + |d.name|, |d.salt|) == d.salt
    ensures Take(Encode(d), 132 + |d.name| + |d.salt|, |d.digest|) == d.digest
  {
    hide Encode, Offset, BigEndian, BigEndianBytes, PackedAt, Tail, Take, RoundTo;
    EncodeHead(d);
    EncodeSize(d);
    HashOffsets();
    HashTail(d, Encode(d));
    TailLength(d);
    Powers();
    BigEndianOfBytes(2, 8);
    BigEndianOfBytes(|Encode(d)| - 16, 8);
  }

  /** Reading inside a record that lies in memory. */
  lemma SliceAt(mem: Memory, p: nat, e: seq<byte>, i: nat, n: nat)
    requires p + |e| <= |mem.bytes| && mem.bytes[p..p + |e|] == e && i + n <= |e|
    ensures mem.Slice(p + i, n) == Take(e, i, n) == e[i..i + n]
  {
    BlockSlice(mem.bytes, p, e, i, i + n);
  }

  // ------------------------------------------------------------- packVbMeta

  /** The descriptors in the order they are written. */
  function Written(lists: TypedLists): seq<Numbered>
  {
    SortBySequence(lists.properties + lists.hashes + lists.unknowns)
  }

  method PackVbMeta(hashes: Hashes, header: Header, lists: TypedLists, pkmd: Option<seq<byte>>, key: seq<byte>,
                    sign: seq<byte> -> seq<byte>)
    returns (bytes: Option<seq<byte>>, b: Blob)
    requires hashes.Valid() && NumberedValid(Written(lists))
    requires |EncodeAll(Written(lists))| + |key| + (if pkmd.Some? then |pkmd.value| else 0) < MAX_INT
    requires header.algorithm <= 6 ==> |key| == KeyBytes(header.algorithm)
    requires forall m :: |sign(m)| == SignatureBytes(header.algorithm)
    ensures bytes.None? <==> header.algorithm > 6 || |header.releaseString| > 47
    ensures bytes.Some? ==> b.Valid() && b.header == header && bytes.value == b.Bytes()
    ensures bytes.Some? ==> b.descs == EncodeAll(Written(lists)) && b.key == key && b.pkmd == (if pkmd.Some? then pkmd.value else [])
    ensures bytes.Some? ==> ReadsAsGiven(bytes.value, header, if pkmd.Some? then pkmd.value else [])
    ensures bytes.Some? && header.algorithm > 0 ==>
              && b.hash == hashes.Of(header.algorithm, b.HeaderBlob() + b.AuxBlob())
              && b.signature == sign(Padding(header.algorithm) + b.hash)
  {
    hide EncodeAll, SortBySequence, EncodeHeader, RoundTo, Padding, ReadsAsGiven;
    b := Blob(header, [], [], [], [], []);
    if header.algorithm > 6 {
      return None, b;
    }
    var descs := EncodeDescriptors(lists);
    var metadata := if pkmd.Some? then pkmd.value else [];
    var aux := Filled(descs + key + metadata);
    var full := Assigned(header, |descs|, |key|, |metadata|);
    if |full.releaseString| > 47 {
      return None, b;
    }
    var headerBlob := EncodeHeader(full);
    var hash, signature := CreateAuth(hashes, header.algorithm, headerBlob, aux, sign);
    var auth := Filled(hash + signature);
    b := Blob(header, hash, signature, descs, key, metadata);
    bytes := Some(headerBlob + auth + aux);
    assert bytes.value[..|b.Bytes()|] == b.Bytes();
    WrittenAsGiven(b, bytes.value);
  }

  /** AuthBlob.createBlob: hash and signature. */
  method CreateAuth(hashes: Hashes, algorithm: u32, headerBlob: seq<byte>, aux: seq<byte>, sign: seq<byte> -> seq<byte>)
    returns (hash: seq<byte>, signature: seq<byte>)
    requires hashes.Valid() && algorithm <= 6 && |headerBlob| + |aux| < 0x1_0000_0000
    requires forall m :: |sign(m)| == SignatureBytes(algorithm)
    ensures |hash| == HashBytes(algorithm) && |signature| == SignatureBytes(algorithm)
    ensures algorithm > 0 ==> hash == hashes.Of(algorithm, headerBlob + aux) && signature == sign(Padding(algorithm) + hash)
  {
    hide Padding;
    if algorithm == 0 {
      return [], [];
    }
    JoinedTwo(headerBlob, aux);
    hash := HashOf(hashes, algorithm, [headerBlob, aux]);
    signature := sign(Padding(algorithm) + hash);
  }

  /** The verifier's verdict on memory that begins with a blob: everything passes but possibly the
      signature, which passes exactly if RSA accepts it for the key, and so, for a documented key,
      exactly if it is one. */
  ghost predicate VerdictFor(hashes: Hashes, b: Blob, mem: Memory, result: VerifyResult)
    requires hashes.Valid() && b.Valid()
  {
    if b.header.algorithm == 0 then result == OkNotSigned
    else
      && LayoutOf(mem.bytes) == Signed && HashMatches(hashes, mem.bytes) && PublicKey(mem.bytes) == b.key
      && result == (if Rsa.RsaAccepts(b.key, |b.key|, b.signature, b.hash, Padding(b.header.algorithm)) then VerifyOk
                    else SignatureMismatch)
      && (KeyFits(mem) && KeyDocumented(mem) ==> (result == VerifyOk <==> SignatureMatches(mem)))
  }

  /** The offsets of exactly the descriptors that were written. */
  ghost predicate VisitsAll(ns: seq<Numbered>, algorithm: nat, visited: seq<nat>)
  {
    AllValid(Descs(ns)) && visited == D.Offsets(HEADER_SIZE + AuthSize(algorithm), Encodings(Descs(ns)))
  }

  predicate PayloadsAligned(ns: seq<Numbered>)
  {
    forall n :: n in ns && n.desc.Unknown? ==> |n.desc.data| % 8 == 0
  }

  /** What is packed, read back with anything behind it. */
  method PackThenVerify(hashes: Hashes, header: Header, lists: TypedLists, pkmd: Option<seq<byte>>, key: seq<byte>,
                        sign: seq<byte> -> seq<byte>, extra: seq<byte>, behind: nat -> byte, base: u64)
    returns (bytes: seq<byte>, b: Blob, result: VerifyResult, visited: seq<nat>, complete: bool)
    requires hashes.Valid() && NumberedValid(Written(lists)) && PayloadsAligned(Written(lists))
    requires |EncodeAll(Written(lists))| + |key| + (if pkmd.Some? then |pkmd.value| else 0) < MAX_INT
    requires header.algorithm <= 6 && |header.releaseString| <= 47 && |key| == KeyBytes(header.algorithm)
    requires forall m :: |sign(m)| == SignatureBytes(header.algorithm)
    requires header.requiredMajor == VERSION_MAJOR && header.requiredMinor <= VERSION_MINOR
    requires |extra| < 0x1_0000_0000 && base < 0x1000_0000_0000_0000
    ensures b.Valid() && bytes == b.Bytes() && b.header == header && b.key == key && b.descs == EncodeAll(Written(lists))
    ensures header.algorithm > 0 ==> b.hash == hashes.Of(header.algorithm, b.HeaderBlob() + b.AuxBlob())
                                     && b.signature == sign(Padding(header.algorithm) + b.hash)
    ensures ReadsAsGiven(bytes + extra, header, if pkmd.Some? then pkmd.value else [])
    ensures VerdictFor(hashes, b, Memory(bytes + extra, behind), result)
    ensures complete && VisitsAll(Written(lists), header.algorithm, visited)
  {
    hide EncodeAll, SortBySequence, VerdictFor, VisitsAll, Padding, Hashes.Of, ReadsAsGiven;
    var packed;
    packed, b := PackVbMeta(hashes, header, lists, pkmd, key, sign);
    bytes := packed.value;
    assert (bytes + extra)[..|bytes|] == bytes;
    WrittenAsGiven(b, bytes + extra);
    result, visited, complete := VerifyWritten(hashes, b, Written(lists), bytes + extra, behind, base);
  }

  /** The two entry points of the verifier on an image that begins with a blob. */
  method VerifyWritten(hashes: Hashes, b: Blob, ghost ns: seq<Numbered>, image: seq<byte>, behind: nat -> byte, base: u64)
    returns (result: VerifyResult, visited: seq<nat>, complete: bool)
    requires hashes.Valid() && b.Valid() && |image| >= |b.Bytes()| && image[..|b.Bytes()|] == b.Bytes()
    requires |image| < 0x1000_0000_0000_0000 && base < 0x1000_0000_0000_0000
    requires b.header.requiredMajor == VERSION_MAJOR && b.header.requiredMinor <= VERSION_MINOR
    requires b.header.algorithm > 0 ==> b.hash == hashes.Of(b.header.algorithm, b.HeaderBlob() + b.AuxBlob())
    requires NumberedValid(ns) && PayloadsAligned(ns) && b.descs == EncodeAll(ns)
    ensures VerdictFor(hashes, b, Memory(image, behind), result)
    ensures complete && VisitsAll(ns, b.header.algorithm, visited)
  {
    hide EncodeAll, LayoutOf, HashMatches, PublicKey, KeyFits, KeyDocumented, SignatureMatches, D.Consumed, RsaPasses, Rsa.RsaAccepts,
         D.AllDescriptors, D.HasRegion, Encode, Encodings, D.Offsets, Blob.Bytes, Blob.HeaderBlob, Blob.AuxBlob, Hashes.Of, Padding,
         Accepted, NumberedValid, PayloadsAligned, AllValid, HeaderOf, RsaBytes, AuthSize, Hashes.Valid;
    var mem := Memory(image, behind);
    WrittenPasses(hashes, b, mem, ns);
    if b.header.algorithm > 0 {
      WrittenRsa(b, mem);
    }
    var found;
    result, found := VbmetaImageVerify(hashes, mem);
    complete, visited := D.DescriptorForeach(mem, base);
  }

  /** The RSA check is applied to the key, signature and hash of the blob. */
  lemma WrittenRsa(b: Blob, mem: Memory)
    requires b.Valid() && |mem.bytes| >= |b.Bytes()| && mem.bytes[..|b.Bytes()|] == b.Bytes() && b.header.algorithm > 0
    requires LayoutOf(mem.bytes) == Signed
    ensures RsaPasses(mem) <==> Rsa.RsaAccepts(b.key, |b.key|, b.signature, b.hash, Padding(b.header.algorithm))
  {
    hide HeaderOf, LayoutOf, RoundTo, Blob.HeaderBlob, Blob.AuxBlob, Blob.AuthBlob, Blob.Bytes, StoredHash, Signature, PublicKey, Covered,
         Padding, Rsa.RsaAccepts, Filled;
    WrittenContents(b, mem.bytes);
    ImageHeader(b, mem.bytes);
  }

  /** The three parts of the agreement, for one blob. */
  lemma WrittenPasses(hashes: Hashes, b: Blob, mem: Memory, ns: seq<Numbered>)
    requires hashes.Valid() && b.Valid() && |mem.bytes| >= |b.Bytes()| && mem.bytes[..|b.Bytes()|] == b.Bytes()
    requires |mem.bytes| < B64 && b.header.requiredMajor == VERSION_MAJOR && b.header.requiredMinor <= VERSION_MINOR
    requires b.header.algorithm > 0 ==> b.hash == hashes.Of(b.header.algorithm, b.HeaderBlob() + b.AuxBlob())
    requires NumberedValid(ns) && PayloadsAligned(ns) && b.descs == EncodeAll(ns)
    ensures LayoutOf(mem.bytes) == if b.header.algorithm == 0 then Unsigned else Signed
    ensures b.header.algorithm > 0 ==> HashMatches(hashes, mem.bytes) && PublicKey(mem.bytes) == b.key
    ensures AllValid(Descs(ns)) && D.HasRegion(mem.bytes) && D.Consumed(mem)
    ensures D.AllDescriptors(mem) == D.Offsets(HEADER_SIZE + AuthSize(b.header.algorithm), Encodings(Descs(ns)))
  {
    hide EncodeAll, LayoutOf, HashMatches, PublicKey, D.Consumed, D.AllDescriptors, D.HasRegion, RoundTo, Encode,
         Blob.Bytes, Blob.HeaderBlob, Blob.AuxBlob;
    WrittenLayout(b, mem.bytes);
    WrittenAccepted(hashes, b, mem.bytes);
    WrittenStream(ns);
    WrittenDescriptors(b, mem, Descs(ns));
  }

  lemma WrittenAccepted(hashes: Hashes, b: Blob, image: seq<byte>)
    requires hashes.Valid() && b.Valid() && |image| >= |b.Bytes()| && image[..|b.Bytes()|] == b.Bytes()
    requires LayoutOf(image) == if b.header.algorithm == 0 then Unsigned else Signed
    requires b.header.algorithm > 0 ==> b.hash == hashes.Of(b.header.algorithm, b.HeaderBlob() + b.AuxBlob())
    ensures b.header.algorithm > 0 ==> HashMatches(hashes, image) && PublicKey(image) == b.key
  {
    hide HeaderOf, LayoutOf, RoundTo, Blob.HeaderBlob, Blob.AuxBlob, Blob.Bytes, StoredHash, PublicKey, Covered, Hashes.Of;
    if b.header.algorithm > 0 {
      WrittenContents(b, image);
      ImageHeader(b, image);
    }
  }

  function Descs(ns: seq<Numbered>): (ds: seq<Desc>)
    ensures |ds| == |ns| && forall i :: 0 <= i < |ns| ==> ds[i] == ns[i].desc
  {
    seq(|ns|, i requires 0 <= i < |ns| => ns[i].desc)
  }

  lemma WrittenStream(ns: seq<Numbered>)
    requires NumberedValid(ns) && PayloadsAligned(ns)
    ensures AllValid(Descs(ns)) && EncodeAll(ns) == D.Flat(Encodings(Descs(ns)))
    ensures forall d :: d in Descs(ns) && d.Unknown? ==> |d.data| % 8 == 0
  {
    hide Encode, EncodeAll, Encodings;
    var ds := Descs(ns);
    forall d | d in ds ensures d.Valid() && (d.Unknown? ==> |d.data| % 8 == 0) {
      var i :| 0 <= i < |ds| && ds[i] == d;
      assert ns[i] in ns;
    }
    FlatOfPrefix(ds, ns, 0, |ns|);
    assert ns[..|ns|] == ns && ds[..|ns|] == ds;
  }

  // ------------------------------------------- a key header outside the image

  /** A header that promises a hash but neither signature nor key. */
  const KEYLESS := Header(MAGIC, VERSION_MAJOR, 0, 64, 0, 1, 0, 32, 0, 0, 0, 0, 0, 0, 0, 0, 0, 0, [])

  ghost function KeylessImage(hashes: Hashes): (image: seq<byte>)
    requires hashes.Valid()
    ensures |image| == HEADER_SIZE + 64
  {
    EncodeHeader(KEYLESS) + hashes.Of(1, EncodeHeader(KEYLESS)) + Zeros(32)
  }

  /** The image passes the layout checks and the hash comparison, so its key's header is read, and
      that header lies behind the end of the image. */
  lemma KeyHeaderOutside(hashes: Hashes)
    requires hashes.Valid()
    ensures var image := KeylessImage(hashes);
            LayoutOf(image) == Signed && HashMatches(hashes, image) && KeyHeaderEnd(image) > |image|
  {
    hide EncodeHeader, HeaderOf, Hashes.Of, Hashes.Valid;
    var image, head, hash := KeylessImage(hashes), EncodeHeader(KEYLESS), hashes.Of(1, EncodeHeader(KEYLESS));
    KeylessHeader(image, hash + Zeros(32));
    ThreeParts(image, head, hash, Zeros(32));
    assert image[..|image|] == head + hash + Zeros(32);
    assert Covered(image) == head;
  }

  lemma KeylessHeader(image: seq<byte>, rest: seq<byte>)
    requires image == EncodeHeader(KEYLESS) + rest
    ensures |image| >= HEADER_SIZE && HeaderOf(image) == AsRead(KEYLESS)
  {
    hide Offset, HeaderOf;
    HeaderFits(KEYLESS);
    HeaderOffsets();
    assert image[0..HEADER_SIZE] == EncodeHeader(KEYLESS);
    HeaderRoundTrip(KEYLESS, image);
  }
}
