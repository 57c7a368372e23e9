/** avb_vbmeta_image.c: the header of a vbmeta image and the check of its layout, hash and
    signature. */
module Vbmeta {
  import opened Words
  import opened Sha
  import opened Rsa

  const HEADER_SIZE := 256
  const MAGIC: seq<byte> := [0x41, 0x56, 0x42, 0x30]
  const VERSION_MAJOR := 1
  const VERSION_MINOR := 1

  /** A buffer: the bytes that were read into it, and whatever memory lies behind them. */
  datatype Memory = Memory(bytes: seq<byte>, behind: nat -> byte)
  {
    function Slice(off: nat, len: nat): (s: seq<byte>)
      ensures |s| == len
      ensures off + len <= |bytes| ==> s == bytes[off..off + len]
    {
      seq(len, i requires 0 <= i => if off + i < |bytes| then bytes[off + i] else behind(off + i))
    }
  }

  function Be32(s: seq<byte>): (r: u32)
    requires |s| == 4
    ensures r == BigEndian(s)
  {
    Powers();
    BigEndian(s)
  }

  function Be64(s: seq<byte>): (r: u64)
    requires |s| == 8
    ensures r == BigEndian(s)
  {
    Powers();
    BigEndian(s)
  }

  // -------------------------------------------------------------- the header

  datatype Header = Header(
    magic: seq<byte>, requiredMajor: u32, requiredMinor: u32,
    authSize: u64, auxSize: u64, algorithm: u32,
    hashOffset: u64, hashSize: u64, signatureOffset: u64, signatureSize: u64,
    publicKeyOffset: u64, publicKeySize: u64, metadataOffset: u64, metadataSize: u64,
    descriptorsOffset: u64, descriptorsSize: u64,
    rollbackIndex: u64, flags: u32, releaseString: seq<byte>)

  /** avb_vbmeta_image_header_to_host_byte_order. */
  function HeaderOf(s: seq<byte>): Header
    requires |s| >= HEADER_SIZE
  {
    Header(
      s[0..4], Be32(s[4..8]), Be32(s[8..12]),
      Be64(s[12..20]), Be64(s[20..28]), Be32(s[28..32]),
      Be64(s[32..40]), Be64(s[40..48]), Be64(s[48..56]), Be64(s[56..64]),
      Be64(s[64..72]), Be64(s[72..80]), Be64(s[80..88]), Be64(s[88..96]),
      Be64(s[96..104]), Be64(s[104..112]),
      Be64(s[112..120]), Be32(s[120..124]), s[128..176])
  }

  // ----------------------------------------------------------- the algorithms

  /** The two hash functions, with abstract compression. */
  datatype Hashes = Hashes(sha256: Algorithm<seq<u32>>, sha512: Algorithm<seq<u64>>)
  {
    ghost predicate Valid()
    {
      && sha256.Valid() && sha256.bs == 64 && (forall h :: |sha256.output(h)| == 32)
      && sha512.Valid() && sha512.bs == 128 && (forall h :: |sha512.output(h)| == 64)
    }

    /** The hash an algorithm type uses. */
    ghost function Of(algorithm: int, m: seq<byte>): (d: seq<byte>)
      requires Valid() && 1 <= algorithm <= 6
      ensures |d| == HashLength(algorithm)
    {
      if algorithm <= 3 then Digest(sha256, m) else Digest(sha512, m)
    }
  }

  function HashLength(algorithm: int): nat
  {
    if algorithm <= 3 then 32 else 64
  }

  /** The signature size of an algorithm type in bytes. */
  function RsaBytes(algorithm: int): nat
  {
    if algorithm == 1 || algorithm == 4 then 256 else if algorithm == 2 || algorithm == 5 then 512 else 1024
  }

  /** The DER prefix of the hash's DigestInfo. */
  function DigestInfo(algorithm: int): (s: seq<byte>)
    ensures |s| == 19
  {
    if algorithm <= 3 then
      [0x30, 0x31, 0x30, 0x0d, 0x06, 0x09, 0x60, 0x86, 0x48, 0x01, 0x65, 0x03, 0x04, 0x02, 0x01, 0x05, 0x00, 0x04, 0x20]
    else
      [0x30, 0x51, 0x30, 0x0d, 0x06, 0x09, 0x60, 0x86, 0x48, 0x01, 0x65, 0x03, 0x04, 0x02, 0x03, 0x05, 0x00, 0x04, 0x40]
  }

  /** EMSA-PKCS1-v1_5 (section 9.2 of RFC 8017) without the hash value. */
  function Padding(algorithm: int): (s: seq<byte>)
    ensures |s| + HashLength(algorithm) == RsaBytes(algorithm)
  {
    var ones := RsaBytes(algorithm) - HashLength(algorithm) - 22;
    [0x00, 0x01] + seq(ones, i => 0xff) + [0x00] + DigestInfo(algorithm)
  }

  /** Section 9.2 of RFC 8017: 0, 1, at least eight bytes of ones, 0, and the encoded DigestInfo up
      to the hash. */
  lemma PaddingLaid(algorithm: int)
    ensures var ones := RsaBytes(algorithm) - HashLength(algorithm) - 22;
            ones >= 8 && |Padding(algorithm)| == ones + 22
            && Padding(algorithm)[..2] == [0, 1] && Padding(algorithm)[ones + 2] == 0 && Padding(algorithm)[ones + 3..] == DigestInfo(algorithm)
            && forall i :: 2 <= i < ones + 2 ==> Padding(algorithm)[i] == 0xff
  {
    hide DigestInfo;
    var ones := RsaBytes(algorithm) - HashLength(algorithm) - 22;
    var front := [0x00, 0x01] + seq(ones, i => 0xff) + [0x00];
    assert Padding(algorithm) == front + DigestInfo(algorithm) && |front| == ones + 3;
  }

  /** DigestInfo: a sequence of an algorithm without parameters, for SHA-256 or SHA-512, and an octet
      string, which is the hash. */
  lemma DigestInfoLaid(algorithm: int)
    ensures var d, h := DigestInfo(algorithm), HashLength(algorithm);
            && d[0] == 0x30 && d[1] == 17 + h && d[2] == 0x30 && d[3] == 13 && d[4] == 6 && d[5] == 9
            && d[6] == 0x60 && d[7] == 0x86 && d[8] == 0x48 && d[9] == 1 && d[10] == 0x65 && d[11] == 3 && d[12] == 4 && d[13] == 2
            && d[14] == (if h == 32 then 1 else 3)
            && d[15] == 5 && d[16] == 0 && d[17] == 4 && d[18] == h
  {
  }

  // ---------------------------------------------------------------- the layout

  datatype Layout = Invalid | Unsupported | Unsigned | Signed

  /** [offset, offset + size) lies inside a block. */
  predicate Inside(offset: nat, size: nat, block: nat)
  {
    offset + size <= block
  }

  predicate BlocksFit(h: Header, length: nat)
  {
    && h.authSize % 64 == 0 && h.auxSize % 64 == 0
    && HEADER_SIZE + h.authSize + h.auxSize <= length
  }

  predicate RegionsFit(h: Header)
  {
    && Inside(h.hashOffset, h.hashSize, h.authSize)
    && Inside(h.signatureOffset, h.signatureSize, h.authSize)
    && Inside(h.publicKeyOffset, h.publicKeySize, h.auxSize)
    && (h.metadataSize > 0 ==> Inside(h.metadataOffset, h.metadataSize, h.auxSize))
  }

  /** What the header alone says about an image, in unbounded arithmetic. */
  function LayoutOf(image: seq<byte>): Layout
  {
    if |image| < HEADER_SIZE then Invalid
    else
      var h := HeaderOf(image);
      if h.magic != MAGIC then Invalid
      else if h.requiredMajor != VERSION_MAJOR || h.requiredMinor > VERSION_MINOR then Unsupported
      else if h.releaseString[47] != 0 || !BlocksFit(h, |image|) || !RegionsFit(h) then Invalid
      else if h.algorithm == 0 then Unsigned
      else if h.algorithm > 6 || h.hashSize != HashLength(h.algorithm) then Invalid
      else Signed
  }

  /** The verdict on the layout, from the bytes: magic, versions, the end of the release string, the
      sizes of the blocks, the regions in them, and the algorithm with its hash size. */
  lemma LayoutFromBytes(image: seq<byte>)
    ensures |image| < 256 || image[..4] != [0x41, 0x56, 0x42, 0x30] ==> LayoutOf(image) == Invalid
    ensures |image| >= 256 && image[..4] == [0x41, 0x56, 0x42, 0x30] ==>
              (LayoutOf(image) == Unsupported <==> BigEndian(image[4..8]) != 1 || BigEndian(image[8..12]) > 1)
    ensures |image| >= 256 && image[..4] == [0x41, 0x56, 0x42, 0x30] && BigEndian(image[4..8]) == 1 && BigEndian(image[8..12]) <= 1 ==>
              var auth, aux, algorithm := BigEndian(image[12..20]), BigEndian(image[20..28]), BigEndian(image[28..32]);
              (LayoutOf(image) != Invalid <==>
                && image[175] == 0 && auth % 64 == 0 && aux % 64 == 0 && 256 + auth + aux <= |image|
                && BigEndian(image[32..40]) + BigEndian(image[40..48]) <= auth
                && BigEndian(image[48..56]) + BigEndian(image[56..64]) <= auth
                && BigEndian(image[64..72]) + BigEndian(image[72..80]) <= aux
                && (BigEndian(image[88..96]) > 0 ==> BigEndian(image[80..88]) + BigEndian(image[88..96]) <= aux)
                && (algorithm == 0 || (algorithm <= 3 && BigEndian(image[40..48]) == 32)
                    || (4 <= algorithm <= 6 && BigEndian(image[40..48]) == 64)))
    ensures LayoutOf(image) == Signed ==> |image| >= 256 && BigEndian(image[28..32]) != 0
    ensures LayoutOf(image) == Unsigned ==> |image| >= 256 && BigEndian(image[28..32]) == 0
  {
    hide BigEndian;
    if |image| >= 256 {
      assert image[0..4] == image[..4];
      assert image[128..176][47] == image[175];
    }
  }

  function AuxStart(h: Header): nat
  {
    HEADER_SIZE + h.authSize
  }

  /** The bytes covered by the hash: header and auxiliary block. */
  function Covered(image: seq<byte>): seq<byte>
    requires |image| >= HEADER_SIZE && BlocksFit(HeaderOf(image), |image|)
  {
    var h := HeaderOf(image);
    image[..HEADER_SIZE] + image[AuxStart(h)..AuxStart(h) + h.auxSize]
  }

  function StoredHash(image: seq<byte>): seq<byte>
    requires LayoutOf(image) == Signed
  {
    var h := HeaderOf(image);
    image[HEADER_SIZE + h.hashOffset..HEADER_SIZE + h.hashOffset + h.hashSize]
  }

  function Signature(image: seq<byte>): seq<byte>
    requires LayoutOf(image) == Signed
  {
    var h := HeaderOf(image);
    image[HEADER_SIZE + h.signatureOffset..HEADER_SIZE + h.signatureOffset + h.signatureSize]
  }

  function PublicKey(image: seq<byte>): seq<byte>
    requires LayoutOf(image) == Signed
  {
    var h := HeaderOf(image);
    image[AuxStart(h) + h.publicKeyOffset..AuxStart(h) + h.publicKeyOffset + h.publicKeySize]
  }

  /** The public key metadata handed to the key check. */
  function Metadata(mem: Memory): Option<seq<byte>>
    requires |mem.bytes| >= HEADER_SIZE
  {
    var h := HeaderOf(mem.bytes);
    if h.metadataSize > 0 then Some(mem.Slice(AuxStart(h) + h.metadataOffset, h.metadataSize)) else None
  }

  /** The memory the RSA code reads the key from: its header is read before the size is
      looked at. */
  function KeyMemory(mem: Memory): (s: seq<byte>)
    requires LayoutOf(mem.bytes) == Signed
    ensures |s| >= KEY_HEADER && HeaderOf(mem.bytes).publicKeySize <= |s|
    ensures HeaderOf(mem.bytes).publicKeySize >= KEY_HEADER ==> s == PublicKey(mem.bytes)
  {
    var h := HeaderOf(mem.bytes);
    mem.Slice(AuxStart(h) + h.publicKeyOffset, if h.publicKeySize < KEY_HEADER then KEY_HEADER else h.publicKeySize)
  }

  // ------------------------------------------------------ avb_vbmeta_image_verify

  datatype VerifyResult = VerifyOk | OkNotSigned | InvalidVbmetaHeader | UnsupportedVersion
                        | HashMismatch | SignatureMismatch

  /** The image's own hash is right. */
  ghost predicate HashMatches(hashes: Hashes, image: seq<byte>)
    requires hashes.Valid() && LayoutOf(image) == Signed
  {
    StoredHash(image) == hashes.Of(HeaderOf(image).algorithm, Covered(image))
  }

  ghost predicate KeyFits(mem: Memory)
    requires LayoutOf(mem.bytes) == Signed
  {
    var h := HeaderOf(mem.bytes);
    LengthsAgree(KeyMemory(mem), h.publicKeySize, Signature(mem.bytes), StoredHash(mem.bytes), Padding(h.algorithm))
  }

  ghost predicate KeyDocumented(mem: Memory)
    requires LayoutOf(mem.bytes) == Signed && KeyFits(mem)
  {
    DocumentedKey(KeyMemory(mem), HeaderOf(mem.bytes).publicKeySize, Signature(mem.bytes))
  }

  /** The signature, raised to the public exponent modulo the image's key, is the padded hash. */
  ghost predicate SignatureMatches(mem: Memory)
    requires LayoutOf(mem.bytes) == Signed && KeyFits(mem)
  {
    var h := HeaderOf(mem.bytes);
    SignatureOf(StoredModulus(KeyMemory(mem), h.publicKeySize), Signature(mem.bytes),
                Padding(h.algorithm) + StoredHash(mem.bytes))
  }

  /** avb_rsa_verify accepts the image's signature of its hash, whatever the key. */
  ghost predicate RsaPasses(mem: Memory)
    requires LayoutOf(mem.bytes) == Signed
  {
    var h := HeaderOf(mem.bytes);
    RsaAccepts(KeyMemory(mem), h.publicKeySize, Signature(mem.bytes), StoredHash(mem.bytes), Padding(h.algorithm))
  }

  /** What an accepted image is. */
  ghost predicate Accepted(hashes: Hashes, mem: Memory)
    requires hashes.Valid()
  {
    LayoutOf(mem.bytes) == Signed && HashMatches(hashes, mem.bytes) && RsaPasses(mem)
  }

  /** The RSA check, for a key as documented, is a signature check in the sense of the standard. */
  lemma RsaPassesIff(mem: Memory)
    requires LayoutOf(mem.bytes) == Signed
    ensures RsaPasses(mem) ==> KeyFits(mem)
    ensures KeyFits(mem) && KeyDocumented(mem) ==> (RsaPasses(mem) <==> SignatureMatches(mem))
  {
    hide LengthsAgree, DocumentedKey, SignatureOf, StoredModulus, KeyMemory, Padding, BigEndian, PowF4, KeyNumbers;
    var h := HeaderOf(mem.bytes);
    if KeyFits(mem) && KeyDocumented(mem) {
      AcceptsIffSignature(KeyMemory(mem), h.publicKeySize, Signature(mem.bytes), StoredHash(mem.bytes), Padding(h.algorithm));
    }
  }

  /** The verdict on an image. */
  ghost function VerifyResultOf(hashes: Hashes, mem: Memory): VerifyResult
    requires hashes.Valid()
  {
    match LayoutOf(mem.bytes)
    case Invalid => InvalidVbmetaHeader
    case Unsupported => UnsupportedVersion
    case Unsigned => OkNotSigned
    case Signed =>
      if !HashMatches(hashes, mem.bytes) then HashMismatch else if RsaPasses(mem) then VerifyOk else SignatureMismatch
  }

  /** Where the reading of the key's header ends; it is read before the key's size is looked at. */
  function KeyHeaderEnd(image: seq<byte>): nat
    requires |image| >= HEADER_SIZE
  {
    var h := HeaderOf(image);
    AuxStart(h) + h.publicKeyOffset + KEY_HEADER
  }

  /** The header of a key that can be accepted lies inside the image, so the bytes behind the
      image, when they are read at all, never decide. */
  lemma VerdictIgnoresBehind(hashes: Hashes, image: seq<byte>, behind: nat -> byte, behind': nat -> byte)
    requires hashes.Valid()
    ensures VerifyResultOf(hashes, Memory(image, behind)) == VerifyResultOf(hashes, Memory(image, behind'))
    ensures VerifyResultOf(hashes, Memory(image, behind)) == VerifyOk ==> KeyHeaderEnd(image) <= |image|
  {
    hide HashMatches, RsaPasses, LayoutOf, KeyHeaderEnd;
    if LayoutOf(image) == Signed {
      RsaIgnoresBehind(image, behind, behind');
    }
  }

  lemma RsaIgnoresBehind(image: seq<byte>, behind: nat -> byte, behind': nat -> byte)
    requires LayoutOf(image) == Signed
    ensures RsaPasses(Memory(image, behind)) <==> RsaPasses(Memory(image, behind'))
    ensures RsaPasses(Memory(image, behind)) ==> KeyHeaderEnd(image) <= |image|
  {
    KeyInside(image);
    hide RsaAccepts, Padding, HeaderOf, LayoutOf, PublicKey, StoredHash, Signature;
    if HeaderOf(image).publicKeySize < KEY_HEADER {
      ShortKeyRejected(Memory(image, behind));
      ShortKeyRejected(Memory(image, behind'));
    } else {
      assert KeyMemory(Memory(image, behind)) == PublicKey(image) == KeyMemory(Memory(image, behind'));
    }
  }

  lemma KeyInside(image: seq<byte>)
    requires LayoutOf(image) == Signed
    ensures AuxStart(HeaderOf(image)) + HeaderOf(image).publicKeyOffset + HeaderOf(image).publicKeySize <= |image|
  {
    hide HeaderOf;
  }

  lemma ShortKeyRejected(mem: Memory)
    requires LayoutOf(mem.bytes) == Signed && HeaderOf(mem.bytes).publicKeySize < KEY_HEADER
    ensures !RsaPasses(mem)
  {
  }

  /** avb_safe_add_to on 64-bit values: the sum, and whether it did not wrap. */
  function SafeAdd(a: u64, b: u64): (r: (u64, bool))
    ensures r.1 <==> a + b < B64
    ensures r.1 ==> r.0 == a + b
  {
    var sum := (a + b) % B64;
    (sum, !(sum < a))
  }

  method HashOf(hashes: Hashes, algorithm: u32, parts: seq<seq<byte>>) returns (d: seq<byte>)
    requires hashes.Valid() && 1 <= algorithm <= 6 && |Joined(parts)| < 0x2000_0000_0000_0000
    ensures d == hashes.Of(algorithm, Joined(parts))
  {
    if algorithm <= 3 {
      d := DigestOfParts(hashes.sha256, parts);
    } else {
      d := DigestOfParts(hashes.sha512, parts);
    }
  }

  lemma JoinedTwo(a: seq<byte>, b: seq<byte>)
    ensures Joined([a, b]) == a + b
  {
    assert [a, b][..1] == [a] && [a][..0] == [];
    assert Joined([a]) == Joined([]) + a == a;
  }

  /** The checks on the header, with the wrap-around tests of the code. */
  method CheckLayout(image: seq<byte>) returns (layout: Layout)
    requires |image| < 0x1000_0000_0000_0000
    ensures layout == LayoutOf(image)
  {
    layout := Invalid;
    if |image| < HEADER_SIZE {
      return;
    }
    var h := HeaderOf(image);
    if h.magic != MAGIC {
      return;
    }
    if h.requiredMajor != VERSION_MAJOR || h.requiredMinor > VERSION_MINOR {
      return Unsupported;
    }
    if h.releaseString[47] != 0 || h.authSize % 64 != 0 || h.auxSize % 64 != 0 {
      return;
    }
    var (withAuth, noWrap) := SafeAdd(HEADER_SIZE, h.authSize);
    if !noWrap {
      return;
    }
    var (total, noWrap') := SafeAdd(withAuth, h.auxSize);
    if !noWrap' || total > |image| {
      return;
    }
    var regions := CheckRegions(h);
    if !regions {
      return;
    }
    if h.algorithm == 0 {
      return Unsigned;
    }
    if h.algorithm > 6 || h.hashSize != HashLength(h.algorithm) {
      return;
    }
    layout := Signed;
  }

  method CheckRegions(h: Header) returns (fit: bool)
    ensures fit <==> RegionsFit(h)
  {
    fit := false;
    var (hashEnd, hashOk) := SafeAdd(h.hashOffset, h.hashSize);
    if !hashOk || hashEnd > h.authSize {
      return;
    }
    var (signatureEnd, signatureOk) := SafeAdd(h.signatureOffset, h.signatureSize);
    if !signatureOk || signatureEnd > h.authSize {
      return;
    }
    var (keyEnd, keyOk) := SafeAdd(h.publicKeyOffset, h.publicKeySize);
    if !keyOk || keyEnd > h.auxSize {
      return;
    }
    if h.metadataSize > 0 {
      var (metadataEnd, metadataOk) := SafeAdd(h.metadataOffset, h.metadataSize);
      if !metadataOk || metadataEnd > h.auxSize {
        return;
      }
    }
    fit := true;
  }

  method VbmetaImageVerify(hashes: Hashes, mem: Memory) returns (ret: VerifyResult, key: Option<seq<byte>>)
    requires hashes.Valid() && |mem.bytes| < 0x1000_0000_0000_0000
    ensures ret == InvalidVbmetaHeader <==> LayoutOf(mem.bytes) == Invalid
    ensures ret == UnsupportedVersion <==> LayoutOf(mem.bytes) == Unsupported
    ensures ret == OkNotSigned <==> LayoutOf(mem.bytes) == Unsigned
    ensures ret == HashMismatch <==> LayoutOf(mem.bytes) == Signed && !HashMatches(hashes, mem.bytes)
    ensures ret == VerifyResultOf(hashes, mem) && (ret == VerifyOk <==> Accepted(hashes, mem))
    ensures LayoutOf(mem.bytes) == Signed && KeyFits(mem) && KeyDocumented(mem) ==>
              (ret == VerifyOk <==> HashMatches(hashes, mem.bytes) && SignatureMatches(mem))
    ensures ret == VerifyOk ==> key == Some(PublicKey(mem.bytes)) && |key.value| == KEY_HEADER + 2 * RsaBytes(HeaderOf(mem.bytes).algorithm)
    ensures ret != VerifyOk ==> key == None
  {
    hide LayoutOf, HeaderOf, HashMatches, KeyFits, KeyDocumented, SignatureMatches, PublicKey, RsaPasses;
    key := None;
    var layout := CheckLayout(mem.bytes);
    match layout {
      case Invalid => ret := InvalidVbmetaHeader;
      case Unsupported => ret := UnsupportedVersion;
      case Unsigned => ret := OkNotSigned;
      case Signed => ret, key := VerifySigned(hashes, mem);
    }
  }

  /** Hash and signature comparison, for an image whose layout is right. */
  method VerifySigned(hashes: Hashes, mem: Memory) returns (ret: VerifyResult, key: Option<seq<byte>>)
    requires hashes.Valid() && |mem.bytes| < 0x1000_0000_0000_0000 && LayoutOf(mem.bytes) == Signed
    ensures ret in {VerifyOk, HashMismatch, SignatureMismatch}
    ensures ret == HashMismatch <==> !HashMatches(hashes, mem.bytes)
    ensures ret == VerifyOk <==> HashMatches(hashes, mem.bytes) && RsaPasses(mem)
    ensures KeyFits(mem) && KeyDocumented(mem) ==>
              (ret == VerifyOk <==> HashMatches(hashes, mem.bytes) && SignatureMatches(mem))
    ensures key == if ret == VerifyOk then Some(PublicKey(mem.bytes)) else None
    ensures ret == VerifyOk ==> |key.value| == KEY_HEADER + 2 * RsaBytes(HeaderOf(mem.bytes).algorithm)
  {
    RsaPassesIff(mem);
    var same := HashComparison(hashes, mem.bytes);
    if !same {
      return HashMismatch, None;
    }
    var h := HeaderOf(mem.bytes);
    var verified := SignatureComparison(mem);
    if !verified {
      return SignatureMismatch, None;
    }
    AcceptedKeySize(mem);
    hide HeaderOf, LayoutOf, KeyFits, PublicKey, HashMatches, SignatureMatches, KeyDocumented, RsaPasses;
    key := None;
    if h.publicKeySize > 0 {
      key := Some(PublicKey(mem.bytes));
    }
    ret := VerifyOk;
  }

  method HashComparison(hashes: Hashes, image: seq<byte>) returns (same: bool)
    requires hashes.Valid() && |image| < 0x1000_0000_0000_0000 && LayoutOf(image) == Signed
    ensures same <==> HashMatches(hashes, image)
  {
    hide Joined, BigEndian, Hashes.Of, Hashes.Valid, HeaderOf;
    var h := HeaderOf(image);
    var header, aux := image[..HEADER_SIZE], image[AuxStart(h)..AuxStart(h) + h.auxSize];
    JoinedTwo(header, aux);
    var computed := HashOf(hashes, h.algorithm, [header, aux]);
    assert computed == hashes.Of(h.algorithm, Covered(image));
    same := SameBytes(StoredHash(image), computed);
  }

  method SignatureComparison(mem: Memory) returns (verified: bool)
    requires |mem.bytes| < 0x1000_0000_0000_0000 && LayoutOf(mem.bytes) == Signed
    ensures verified <==> RsaPasses(mem)
  {
    hide RsaAccepts, LengthsAgree, DocumentedKey, SignatureOf, StoredModulus, KeyMemory, Padding, BigEndian;
    var h := HeaderOf(mem.bytes);
    var keyMemory, signature, hash := KeyMemory(mem), Signature(mem.bytes), StoredHash(mem.bytes);
    var padding := Padding(h.algorithm);
    verified := RsaVerify(keyMemory, h.publicKeySize, signature, hash, padding);
  }

  /** The RSA length checks tie the key to the algorithm, so the key is never empty. */
  lemma AcceptedKeySize(mem: Memory)
    requires LayoutOf(mem.bytes) == Signed && KeyFits(mem)
    ensures |PublicKey(mem.bytes)| == KEY_HEADER + 2 * RsaBytes(HeaderOf(mem.bytes).algorithm)
    ensures HeaderOf(mem.bytes).publicKeySize == |PublicKey(mem.bytes)|
    ensures KeyMemory(mem) == PublicKey(mem.bytes)
  {
  }
}
