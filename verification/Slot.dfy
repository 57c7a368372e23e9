/** The device and the slot data of avb_slot_verify.c, what it means for them to be trusted and
    verified, and the loading of partitions along hash descriptors. */
module Slot {
  import opened Words
  import opened Sha
  import opened Vbmeta
  import opened Descriptors
  import opened Persist

  const MAX_LOADED_PARTITIONS := 32
  const MAX_VBMETA_IMAGES := 32
  const VBMETA_MAX_SIZE := 65536
  const PART_NAME_MAX_SIZE := 32
  const ROLLBACK_LOCATIONS := 32
  const FOOTER_SIZE := 64
  const MAX_SUBSTITUTIONS := 10
  const ADDRESSABLE := 0x1000_0000_0000_0000

  /** result_should_continue. */
  predicate ShouldContinue(r: SlotResult)
  {
    r in {Ok, ErrorVerification, ErrorRollbackIndex, ErrorPublicKeyRejected}
  }

  function FromIo(io: IoResult): (r: SlotResult)
    requires io != IoOk
    ensures !ShouldContinue(r) && (r == ErrorOom || r == ErrorIo) && (r == ErrorOom <==> io == IoOom)
  {
    if io == IoOom then ErrorOom else ErrorIo
  }

  // ----------------------------------------------------------------- strings

  /** The rest of a string in which cc continuation bytes are still due. */
  predicate ContinuesUtf8(s: seq<byte>, cc: nat)
  {
    if s == [] then cc == 0
    else
      var c := s[0];
      if cc > 0 then 0x80 <= c < 0xc0 && ContinuesUtf8(s[1..], cc - 1)
      else if c < 0x80 then ContinuesUtf8(s[1..], 0)
      else if 0xc0 <= c < 0xe0 then ContinuesUtf8(s[1..], 1)
      else if 0xe0 <= c < 0xf0 then ContinuesUtf8(s[1..], 2)
      else 0xf0 <= c < 0xf8 && ContinuesUtf8(s[1..], 3)
  }

  predicate ValidUtf8(s: seq<byte>)
  {
    ContinuesUtf8(s, 0)
  }

  /** avb_validate_utf8: cc continuation bytes are still due. */
  method ValidateUtf8(s: seq<byte>) returns (ok: bool)
    ensures ok <==> ValidUtf8(s)
  {
    var n, cc := 0, 0;
    assert s[0..] == s;
    while n < |s|
      invariant 0 <= n <= |s| && 0 <= cc && (ValidUtf8(s) <==> ContinuesUtf8(s[n..], cc))
    {
      var c := s[n];
      assert s[n..][0] == c && s[n..][1..] == s[n + 1..];
      if cc > 0 {
        if !(0x80 <= c < 0xc0) {
          return false;
        }
        cc := cc - 1;
      } else if c < 0x80 {
        cc := 0;
      } else if 0xc0 <= c < 0xe0 {
        cc := 1;
      } else if 0xe0 <= c < 0xf0 {
        cc := 2;
      } else if 0xf0 <= c < 0xf8 {
        cc := 3;
      } else {
        return false;
      }
      n := n + 1;
    }
    ok := cc == 0;
  }

  /** One character: a lead byte that says how many continuation bytes follow, and those. */
  predicate Character(c: seq<byte>)
  {
    && (|c| == 1 ==> c[0] < 0x80) && (|c| == 2 ==> 0xc0 <= c[0] < 0xe0) && (|c| == 3 ==> 0xe0 <= c[0] < 0xf0)
    && (|c| == 4 ==> 0xf0 <= c[0] < 0xf8) && 1 <= |c| <= 4 && forall i :: 1 <= i < |c| ==> 0x80 <= c[i] < 0xc0
  }

  /** Continuation bytes that are due come first. */
  lemma {:induction false} DueFirst(s: seq<byte>, cc: nat)
    ensures ContinuesUtf8(s, cc) <==>
              cc <= |s| && (forall i :: 0 <= i < cc ==> 0x80 <= s[i] < 0xc0) && ContinuesUtf8(s[cc..], 0)
  {
    if cc == 0 {
      assert s[0..] == s;
    } else if s != [] {
      DueFirst(s[1..], cc - 1);
      assert cc <= |s| ==> s[1..][cc - 1..] == s[cc..];
      assert cc <= |s| ==> forall i :: 1 <= i < cc ==> s[i] == s[1..][i - 1];
      assert cc <= |s| ==> forall i :: 0 <= i < cc - 1 ==> s[1..][i] == s[i + 1];
    }
  }

  /** A string that is not empty is valid if and only if it begins with a character and goes on
      with a valid string. */
  lemma FirstCharacter(s: seq<byte>)
    requires s != []
    ensures ValidUtf8(s) <==> exists n :: 1 <= n <= |s| && n <= 4 && Character(s[..n]) && ValidUtf8(s[n..])
  {
    var c := s[0];
    var n := if c < 0x80 then 1 else if c < 0xe0 then 2 else if c < 0xf0 then 3 else 4;
    DueFirst(s[1..], n - 1);
    assert n <= |s| ==> s[1..][n - 1..] == s[n..] && forall i :: 1 <= i < n ==> s[1..][i - 1] == s[i];
    assert forall i :: 0 <= i < n - 1 && n <= |s| ==> s[1..][i] == s[..n][i + 1];
    if ValidUtf8(s) {
      assert Character(s[..n]) && ValidUtf8(s[n..]);
    }
    forall m | 1 <= m <= |s| && m <= 4 && Character(s[..m]) && ValidUtf8(s[m..]) ensures ValidUtf8(s) {
      assert s[..m][0] == c && m == n;
      assert forall i :: 1 <= i < n ==> s[..n][i] == s[i];
    }
  }

  // ------------------------------------------------------------------ device

  /** n bytes of a partition from o on, or from that far before its end, as far as there are any. */
  function Stored(data: seq<byte>, o: int, n: nat): (r: Option<seq<byte>>)
    ensures r.Some? ==> |r.value| <= n
    ensures 0 <= o && o + n <= |data| ==> r == Some(data[o..o + n])
    ensures 0 <= o <= |data| < o + n ==> r == Some(data[o..])
    ensures o < 0 <= |data| + o && o + n <= 0 ==> r == Some(data[|data| + o..|data| + o + n])
    ensures o > |data| || |data| + o < 0 ==> r == None
  {
    var from := if o < 0 then |data| + o else o;
    if from < 0 || from > |data| then None
    else if from + n <= |data| then Some(data[from..from + n])
    else Some(data[from..])
  }

  datatype Preload = PreloadFailed(io: IoResult) | NotPreloaded | Preloaded(bytes: seq<byte>)

  /** The operations that do not change during a boot. */
  datatype Device = Device(
    hashes: Hashes,
    partitions: map<Name, seq<byte>>,
    readFault: (Name, int, nat) -> IoResult,
    sizeFault: Name -> IoResult,
    preloaded: (Name, nat) -> Preload,
    trusts: (seq<byte>, Option<seq<byte>>) -> (IoResult, bool),
    rollbackIndex: nat -> (IoResult, u64),
    behind: nat -> byte,
    bufferAddress: u64,
    optionsResult: SlotResult)
  {
    ghost predicate Valid()
    {
      && hashes.Valid() && bufferAddress + VBMETA_MAX_SIZE < B64
      && (forall n :: n in partitions ==> |partitions[n]| < ADDRESSABLE)
      && (forall n, k :: preloaded(n, k).Preloaded? ==> |preloaded(n, k).bytes| < ADDRESSABLE)
      && (forall n, k :: preloaded(n, k).PreloadFailed? ==> preloaded(n, k).io != IoOk)
    }

    /** read_from_partition: a negative offset counts from the end; only the end of the
        partition makes a read partial. */
    function Read(part: Name, offset: i64, num: nat): (r: (IoResult, seq<byte>))
      ensures r.0 == IoOk ==> part in partitions && Stored(partitions[part], offset, num) == Some(r.1)
      ensures readFault(part, offset, num) == IoOk && part in partitions ==>
                r.0 == if Stored(partitions[part], offset, num).Some? then IoOk else RangeOutside
    {
      if readFault(part, offset, num) != IoOk then (readFault(part, offset, num), [])
      else if part !in partitions then (NoSuchPartition, [])
      else
        match Stored(partitions[part], offset, num)
        case None => (RangeOutside, [])
        case Some(bytes) => (IoOk, bytes)
    }

    function PartitionSize(part: Name): (r: (IoResult, nat))
    {
      if sizeFault(part) != IoOk then (sizeFault(part), 0)
      else if part !in partitions then (NoSuchPartition, 0)
      else (IoOk, |partitions[part]|)
    }

    /** The digest a hash descriptor's algorithm name selects. */
    ghost function DigestNamed(algorithm: seq<byte>, m: seq<byte>): (d: Option<seq<byte>>)
      requires Valid()
      ensures d.Some? ==> |d.value| == 32 || |d.value| == 64
    {
      if CString(algorithm) == Ascii("sha256") then Some(Digest(hashes.sha256, m))
      else if CString(algorithm) == Ascii("sha512") then Some(Digest(hashes.sha512, m))
      else None
    }
  }

  // --------------------------------------------------------------- slot data

  datatype VbmetaImage = VbmetaImage(name: Name, mem: Memory, size: nat, result: VerifyResult)
  {
    predicate Sized()
    {
      HEADER_SIZE <= size <= |mem.bytes| <= VBMETA_MAX_SIZE
    }

    /** The vbmeta struct itself, without what was read behind it. */
    function Struct(): (s: seq<byte>)
      ensures |s| == size && (Sized() ==> s == mem.bytes[..size])
    {
      mem.Slice(0, size)
    }
  }

  datatype LoadedPartition = LoadedPartition(name: Name, data: seq<byte>, preloaded: bool)

  /** The fields of AvbSlotVerifyData that loading fills in. The ghost fields remember which
      descriptor of image 0 led to each further image, and which image and descriptor each
      partition comes from. */
  class SlotData {
    var images: seq<VbmetaImage>
    var loaded: seq<LoadedPartition>
    var rollbackIndexes: seq<u64>
    var substitutions: nat
    var mode: ErrorMode
    ghost var chainOf: seq<nat>
    ghost var hashOf: seq<(nat, nat)>

    constructor ()
      ensures images == [] && loaded == [] && |rollbackIndexes| == ROLLBACK_LOCATIONS && mode == Restart
      ensures chainOf == [] && hashOf == [] && substitutions == 0 && rollbackIndexes == seq(ROLLBACK_LOCATIONS, i => 0)
    {
      images, loaded, substitutions, mode := [], [], 0, Restart;
      rollbackIndexes := seq(ROLLBACK_LOCATIONS, i => 0);
      chainOf, hashOf := [], [];
    }
  }

  /** What one call of avb_slot_verify is given. */
  datatype Run = Run(dev: Device, vals: Values, requested: seq<Name>, suffix: Name, allow: bool)

  /** The slot data, the persistent store and what was asked of it, at one point of a run. */
  datatype Snapshot = Snapshot(images: seq<VbmetaImage>, chainOf: seq<nat>, loaded: seq<LoadedPartition>,
                               hashOf: seq<(nat, nat)>, rollbackIndexes: seq<u64>, substitutions: nat,
                               store: Store, log: seq<Event>)
  {
    /** After one more request to the store. */
    ghost function Asked(e: Event): Snapshot
    {
      this.(store := e.After(store), log := log + [e])
    }

    /** The tables do not overflow, and image 0 is the top-level one. */
    ghost predicate Bounded()
    {
      && |images| <= MAX_VBMETA_IMAGES && |loaded| <= MAX_LOADED_PARTITIONS
      && |rollbackIndexes| == ROLLBACK_LOCATIONS
      && |chainOf| == |images| && |hashOf| == |loaded|
      && (forall k :: 0 <= k < |images| ==> images[k].Sized())
      && (images != [] ==> images[0].name == Ascii("vbmeta") || images[0].name == Ascii("boot"))
    }
  }

  ghost function Snap(run: Run, slot: SlotData): Snapshot
    reads slot, run.vals
  {
    Snapshot(slot.images, slot.chainOf, slot.loaded, slot.hashOf, slot.rollbackIndexes, slot.substitutions,
             run.vals.store, run.vals.log)
  }

  // ----------------------------------------------------------- what is trusted

  ghost predicate NotRolledBack(dev: Device, mem: Memory, location: nat)
    requires |mem.bytes| >= HEADER_SIZE
  {
    dev.rollbackIndex(location).0 == IoOk && dev.rollbackIndex(location).1 <= HeaderOf(mem.bytes).rollbackIndex
  }

  /** A footer that can be used: its magic, its version, and a vbmeta size that fits. */
  predicate Footer(s: seq<byte>)
  {
    |s| == 64 && s[..4] == [0x41, 0x56, 0x42, 0x66] && BigEndian(s[4..8]) <= 1 && BigEndian(s[28..36]) <= 65536
  }

  /** What a partition holds as its vbmeta struct: the bytes its footer points to, if footers count
      and there is a usable one, and otherwise its first 64 KiB. None if the footer cannot be read
      or points outside. */
  function VbmetaBytes(data: seq<byte>, footers: bool): (r: Option<seq<byte>>)
    ensures r.Some? ==> |r.value| <= VBMETA_MAX_SIZE
  {
    var start := data[..if |data| <= 65536 then |data| else 65536];
    if !footers then Some(start)
    else if |data| < 64 then None
    else
      var footer := data[|data| - 64..];
      if Footer(footer) then Stored(data, ToI64(BigEndian(footer[20..28])), BigEndian(footer[28..36])) else Some(start)
  }

  /** With a usable footer for offset o and size n, these are bytes o to o + n, and otherwise the
      first 64 KiB. */
  lemma FooterDecides(data: seq<byte>, o: nat, n: nat)
    requires |data| >= 64
    ensures var at := |data| - 64;
            && data[at..at + 4] == [0x41, 0x56, 0x42, 0x66] && BigEndian(data[at + 4..at + 8]) <= 1
            && BigEndian(data[at + 20..at + 28]) == o && BigEndian(data[at + 28..at + 36]) == n <= 65536
            && o + n <= |data| < 0x8000_0000_0000_0000
            ==> VbmetaBytes(data, true) == Some(data[o..o + n])
    ensures var at := |data| - 64;
            || data[at..at + 4] != [0x41, 0x56, 0x42, 0x66] || BigEndian(data[at + 4..at + 8]) > 1
            || BigEndian(data[at + 28..at + 36]) > 65536
            ==> VbmetaBytes(data, true) == Some(if |data| <= 65536 then data else data[..65536])
  {
    var at := |data| - 64;
    var footer := data[at..];
    assert footer[..4] == data[at..at + 4] && footer[4..8] == data[at + 4..at + 8];
    assert footer[20..28] == data[at + 20..at + 28] && footer[28..36] == data[at + 28..at + 36];
    assert |data| <= 65536 ==> data[..|data|] == data;
  }

  /** The bytes are what the partition of that name, with the suffix, holds as its vbmeta struct. */
  ghost predicate ReadFrom(run: Run, name: Name, footers: bool, bytes: seq<byte>)
  {
    var part := CString(name + run.suffix);
    part in run.dev.partitions && VbmetaBytes(run.dev.partitions[part], footers) == Some(bytes)
  }

  /** The name of a chained image as it is compared and recorded: what stands in memory where the
      descriptor's name is, which need not end there. */
  function NameMemory(mem: Memory, p: nat, chain: ChainDescriptor): seq<byte>
  {
    mem.Slice(p + 92, |chain.name| + VBMETA_MAX_SIZE)
  }

  /** Image k is what the device holds under its name, with the verdict on it, and its size is that
      of its three blocks. Images other than the first are what the chain descriptor that led to
      them says; a partition whose name begins with "vbmeta" has no footer. */
  ghost predicate Recorded(run: Run, s: Snapshot, k: nat)
    requires run.dev.Valid() && k < |s.images| == |s.chainOf|
  {
    var image, root, p := s.images[k], s.images[0].mem, s.chainOf[k];
    && image.result == VerifyResultOf(run.dev.hashes, image.mem)
    && |image.mem.bytes| >= 256
    && image.size == 256 + BigEndian(image.mem.bytes[12..20]) + BigEndian(image.mem.bytes[20..28])
    && if k == 0 then ReadFrom(run, image.name, image.name != Ascii("vbmeta"), image.mem.bytes)
       else
         && p in AllDescriptors(root) && ParseChain(root, p).Some?
         && var chain := ParseChain(root, p).value;
            && image.name == CString(NameMemory(root, p, chain))
            && ReadFrom(run, chain.name, root.Slice(p + 92, 6) != Ascii("vbmeta"), image.mem.bytes)
  }

  /** The whole partition of that name. */
  ghost predicate WholePartition(run: Run, l: LoadedPartition)
  {
    var part := l.name + run.suffix;
    && part in run.dev.partitions && |l.data| == |run.dev.partitions[part]|
    && if l.preloaded then run.dev.preloaded(part, |l.data|) == Preloaded(l.data) else l.data == run.dev.partitions[part]
  }

  /** What is loaded for a hash descriptor: as many bytes as it says, or, if errors are allowed, the
      whole partition. */
  ghost predicate LoadedFor(run: Run, d: HashDescriptor, l: LoadedPartition)
  {
    var part := if d.flags % 2 == 1 then d.name else d.name + run.suffix;
    && l.name == d.name && l.name in run.requested && LoadedFrom(run.dev, part, l)
    && if run.allow then part in run.dev.partitions && |l.data| == |run.dev.partitions[part]| else |l.data| == d.imageSize
  }

  /** Partition k is requested, and loaded for the descriptor it is said to come from, or in full. */
  ghost predicate PartitionFrom(run: Run, s: Snapshot, k: nat)
    requires k < |s.loaded| == |s.hashOf|
  {
    var (i, p), l := s.hashOf[k], s.loaded[k];
    if p == 0 then l.name in run.requested && WholePartition(run, l)
    else
      && i < |s.images| && p in AllDescriptors(s.images[i].mem) && ParseHash(s.images[i].mem, p).Some?
      && LoadedFor(run, ParseHash(s.images[i].mem, p).value, l)
  }

  /** Whether errors are allowed or not, everything in the slot data comes from the device. */
  ghost predicate Sourced(run: Run, s: Snapshot)
  {
    && run.dev.Valid() && |s.chainOf| == |s.images| && |s.hashOf| == |s.loaded|
    && (forall k :: 0 <= k < |s.images| ==> Recorded(run, s, k))
    && (forall k :: 0 <= k < |s.loaded| ==> PartitionFrom(run, s, k))
  }

  /** The top-level image: read from the partition it is named after, accepted, signed by a key
      the device trusts, not rolled back. */
  ghost predicate RootTrusted(run: Run, image: VbmetaImage)
    requires run.dev.Valid()
  {
    var mem := image.mem;
    && ReadFrom(run, image.name, image.name != Ascii("vbmeta"), mem.bytes)
    && Accepted(run.dev.hashes, mem)
    && run.dev.trusts(PublicKey(mem.bytes), Metadata(mem)) == (IoOk, true)
    && NotRolledBack(run.dev, mem, 0)
  }

  /** A chained image: read from the partition its chain descriptor at offset p of the top-level
      image names, accepted, signed by exactly the key in that descriptor, not rolled back at
      the descriptor's location. */
  ghost predicate ChainTrusted(run: Run, root: Memory, mem: Memory, p: nat)
    requires run.dev.Valid()
  {
    && Accepted(run.dev.hashes, mem)
    && p in AllDescriptors(root)
    && ParseChain(root, p).Some?
    && ReadFrom(run, ParseChain(root, p).value.name, root.Slice(p + 92, 6) != Ascii("vbmeta"), mem.bytes)
    && PublicKey(mem.bytes) == ParseChain(root, p).value.key
    && NotRolledBack(run.dev, mem, ParseChain(root, p).value.rollbackLocation)
    && HeaderOf(mem.bytes).flags == 0
  }

  /** In strict mode, what every image that is kept satisfies. */
  ghost predicate Trusted(run: Run, s: Snapshot)
  {
    && run.dev.Valid() && |s.chainOf| == |s.images|
    && (forall k :: 0 <= k < |s.images| ==> s.images[k].result == VerifyOk)
    && (|s.images| > 0 ==> RootTrusted(run, s.images[0]))
    && (forall k :: 1 <= k < |s.images| ==> ChainTrusted(run, s.images[0].mem, s.images[k].mem, s.chainOf[k]))
  }

  lemma TrustedAppend(run: Run, s: Snapshot, image: VbmetaImage, p: nat)
    requires Trusted(run, s) && image.result == VerifyOk
    requires if s.images == [] then RootTrusted(run, image) else ChainTrusted(run, s.images[0].mem, image.mem, p)
    ensures Trusted(run, s.(images := s.images + [image], chainOf := s.chainOf + [p]))
  {
    hide RootTrusted, ChainTrusted;
  }

  /** The name under which a hash descriptor's partition is looked up. */
  function PartName(d: HashDescriptor, suffix: Name): Name
  {
    if d.flags % 2 != 0 then d.name else d.name + suffix
  }

  /** The data is the beginning of the partition, or was preloaded for it. */
  ghost predicate LoadedFrom(dev: Device, part: Name, l: LoadedPartition)
  {
    if l.preloaded then dev.preloaded(part, |l.data|) == Preloaded(l.data)
    else part in dev.partitions && l.data <= dev.partitions[part]
  }

  /** The salted digest of as much of the data as the descriptor says, or of all there is, is the
      one in the descriptor, or, if there is none there, the persistent one. */
  ghost predicate PartitionMatches(dev: Device, store: Store, suffix: Name, d: HashDescriptor, l: LoadedPartition)
    requires dev.Valid()
  {
    var hashed := if |l.data| < d.imageSize then l.data else l.data[..d.imageSize];
    var digest := dev.DigestNamed(d.algorithm, d.salt + hashed);
    && digest.Some?
    && if d.digest != [] then digest.value == d.digest
       else DigestName(PartName(d, suffix)) in store && digest.value == store[DigestName(PartName(d, suffix))]
  }

  /** The loaded data is what the hash descriptor at offset p of an image promises. */
  ghost predicate PartitionVerified(run: Run, store: Store, mem: Memory, p: nat, l: LoadedPartition)
    requires run.dev.Valid()
  {
    && p in AllDescriptors(mem) && ParseHash(mem, p).Some?
    && LoadedFor(run, ParseHash(mem, p).value, l)
    && PartitionMatches(run.dev, store, run.suffix, ParseHash(mem, p).value, l)
  }

  /** Every loaded partition is verified. */
  ghost predicate Verified(run: Run, s: Snapshot)
  {
    && run.dev.Valid() && |s.hashOf| == |s.loaded|
    && forall k :: 0 <= k < |s.loaded| ==>
         && s.hashOf[k].0 < |s.images|
         && PartitionVerified(run, s.store, s.images[s.hashOf[k].0].mem, s.hashOf[k].1, s.loaded[k])
  }

  /** Persistent digests stay as they are. */
  ghost predicate KeepsDigests(s: Store, t: Store)
  {
    forall part :: DigestName(part) in s ==> DigestName(part) in t && t[DigestName(part)] == s[DigestName(part)]
  }

  lemma EventKeepsDigests(s: Store, e: Event)
    requires e.Valid()
    ensures KeepsDigests(s, e.After(s))
  {
    forall part | DigestName(part) in s
      ensures DigestName(part) in e.After(s) && e.After(s)[DigestName(part)] == s[DigestName(part)]
    {
      DigestStep(s, e, part);
    }
  }

  /** The requests to the store between two points of a run, none of which is about the error
      mode, account for what became of it. */
  ghost predicate Logged(s: Snapshot, t: Snapshot)
  {
    && |s.log| <= |t.log| && t.log[..|s.log|] == s.log
    && var events := t.log[|s.log|..];
       && AllValid(events) && (forall i :: 0 <= i < |events| ==> !events[i].ManageMode?)
       && t.store == StoreAfter(s.store, events)
  }

  lemma LoggedNothing(s: Snapshot, t: Snapshot)
    requires t.log == s.log && t.store == s.store
    ensures Logged(s, t)
  {
    assert t.log[|s.log|..] == [];
  }

  lemma LoggedOne(s: Snapshot, t: Snapshot, e: Event)
    requires e.Valid() && !e.ManageMode? && t.log == s.log + [e] && t.store == e.After(s.store)
    ensures Logged(s, t)
  {
    assert t.log[|s.log|..] == [e] && [e][..0] == [];
  }

  lemma LoggedTrans(s: Snapshot, t: Snapshot, u: Snapshot)
    requires Logged(s, t) && Logged(t, u)
    ensures Logged(s, u)
  {
    var a, b := t.log[|s.log|..], u.log[|t.log|..];
    assert u.log == u.log[..|t.log|] + u.log[|t.log|..];
    assert u.log[..|s.log|] == u.log[..|t.log|][..|s.log|];
    assert u.log[|s.log|..] == a + b;
    StoreAfterConcat(s.store, a, b);
  }

  /** Images, partitions and the origins of both are only added to. */
  ghost predicate Extends(s: Snapshot, t: Snapshot)
  {
    && |s.images| <= |t.images| && t.images[..|s.images|] == s.images
    && s.chainOf <= t.chainOf && s.loaded <= t.loaded && s.hashOf <= t.hashOf && KeepsDigests(s.store, t.store)
  }

  lemma ExtendsTrans(s: Snapshot, t: Snapshot, u: Snapshot)
    requires Extends(s, t) && Extends(t, u)
    ensures Extends(s, u)
  {
    assert u.images[..|s.images|] == u.images[..|t.images|][..|s.images|];
  }

  lemma ExtendsRefl(s: Snapshot)
    ensures Extends(s, s)
  {
  }

  lemma ExtendsImage(s: Snapshot, t: Snapshot, k: nat)
    requires Extends(s, t) && k < |s.images|
    ensures k < |t.images| && t.images[k] == s.images[k]
  {
    assert t.images[k] == t.images[..|s.images|][k];
  }

  /** More images and more persistent digests do not undo a verified partition. */
  lemma VerifiedStays(run: Run, s: Snapshot, t: Snapshot)
    requires Verified(run, s) && Extends(s, t) && t.loaded == s.loaded && t.hashOf == s.hashOf
    ensures Verified(run, t)
  {
    forall k | 0 <= k < |s.loaded|
      ensures && t.hashOf[k].0 < |t.images|
              && PartitionVerified(run, t.store, t.images[t.hashOf[k].0].mem, t.hashOf[k].1, t.loaded[k])
    {
      assert PartitionVerified(run, s.store, s.images[s.hashOf[k].0].mem, s.hashOf[k].1, s.loaded[k]);
      ExtendsImage(s, t, s.hashOf[k].0);
    }
  }

  lemma VerifiedAppend(run: Run, s: Snapshot, l: LoadedPartition, k: nat, p: nat)
    requires Verified(run, s) && k < |s.images|
    requires PartitionVerified(run, s.store, s.images[k].mem, p, l)
    ensures Verified(run, s.(loaded := s.loaded + [l], hashOf := s.hashOf + [(k, p)]))
  {
    hide PartitionVerified;
  }

  /** The descriptor at offset p of image k was acted on: a requested partition is loaded for
      a hash descriptor, an image recorded for a chain descriptor. */
  ghost predicate Followed(requested: seq<Name>, s: Snapshot, k: nat, p: nat)
  {
    && k < |s.images|
    && var mem := s.images[k].mem;
       && (Tag(mem, p) == TAG_HASH ==>
             ParseHash(mem, p).Some? && (ParseHash(mem, p).value.name in requested ==> (k, p) in s.hashOf))
       && (Tag(mem, p) == TAG_CHAIN_PARTITION ==> exists j :: 1 <= j < |s.chainOf| && s.chainOf[j] == p)
  }

  lemma FollowedStays(requested: seq<Name>, s: Snapshot, t: Snapshot, k: nat, p: nat)
    requires Extends(s, t) && Followed(requested, s, k, p)
    ensures Followed(requested, t, k, p)
  {
    hide ParseHash, Tag;
    ExtendsImage(s, t, k);
    if Tag(s.images[k].mem, p) == TAG_CHAIN_PARTITION {
      var j :| 1 <= j < |s.chainOf| && s.chainOf[j] == p;
      assert t.chainOf[j] == p;
    }
  }

  /** The first n descriptors of image k were acted on. */
  ghost predicate PrefixFollowed(requested: seq<Name>, s: Snapshot, k: nat, n: nat)
  {
    && k < |s.images|
    && var all := AllDescriptors(s.images[k].mem);
       n <= |all| && forall i :: 0 <= i < n ==> Followed(requested, s, k, all[i])
  }

  lemma PrefixStays(requested: seq<Name>, s: Snapshot, t: Snapshot, k: nat, n: nat)
    requires Extends(s, t) && PrefixFollowed(requested, s, k, n)
    ensures PrefixFollowed(requested, t, k, n)
  {
    hide Followed, AllDescriptors;
    ExtendsImage(s, t, k);
    var all := AllDescriptors(s.images[k].mem);
    forall i | 0 <= i < n ensures Followed(requested, t, k, all[i]) {
      FollowedStays(requested, s, t, k, all[i]);
    }
  }

  /** One more descriptor, with the slot data grown meanwhile. */
  lemma PrefixNext(requested: seq<Name>, s: Snapshot, t: Snapshot, k: nat, n: nat)
    requires Extends(s, t) && PrefixFollowed(requested, s, k, n) && n < |AllDescriptors(s.images[k].mem)|
    requires Followed(requested, t, k, AllDescriptors(s.images[k].mem)[n])
    ensures PrefixFollowed(requested, t, k, n + 1)
  {
    hide Followed, AllDescriptors;
    ExtendsImage(s, t, k);
    PrefixStays(requested, s, t, k, n);
  }

  /** Every descriptor of image k was acted on. */
  ghost predicate ImageFollowed(requested: seq<Name>, s: Snapshot, k: nat)
  {
    k < |s.images| && PrefixFollowed(requested, s, k, |AllDescriptors(s.images[k].mem)|)
  }

  /** Partitions so far are verified and the chained images below n completely acted on. */
  ghost predicate Settled(run: Run, s: Snapshot, n: nat)
  {
    Verified(run, s) && n <= |s.images| && forall k :: 1 <= k < n ==> ImageFollowed(run.requested, s, k)
  }

  lemma SettledStays(run: Run, s: Snapshot, t: Snapshot, n: nat)
    requires Settled(run, s, n) && Extends(s, t) && Verified(run, t)
    ensures Settled(run, t, n)
  {
    hide Verified, PrefixFollowed, AllDescriptors;
    forall k | 1 <= k < n ensures ImageFollowed(run.requested, t, k) {
      assert ImageFollowed(run.requested, s, k);
      ExtendsImage(s, t, k);
      PrefixStays(run.requested, s, t, k, |AllDescriptors(s.images[k].mem)|);
    }
  }

  /** Every partition is verified and every descriptor of every image was acted on. */
  ghost predicate Complete(run: Run, s: Snapshot)
  {
    Settled(run, s, |s.images|) && ImageFollowed(run.requested, s, 0)
  }

  // ------------------------------------------------------ load_full_partition

  datatype Full = Full(ret: SlotResult, data: seq<byte>, preloaded: bool)

  /** A partition in full: preloaded, or read, and of exactly the size asked for. */
  function FullPartition(dev: Device, part: Name, size: nat): (r: Full)
    requires dev.Valid()
    ensures r.ret == Ok || r.ret == ErrorOom || r.ret == ErrorIo
    ensures r.ret == Ok ==> |r.data| == size && LoadedFrom(dev, part, LoadedPartition([], r.data, r.preloaded))
  {
    match dev.preloaded(part, size)
    case PreloadFailed(io) => Full(FromIo(io), [], false)
    case Preloaded(bytes) => if |bytes| == size then Full(Ok, bytes, true) else Full(ErrorIo, [], false)
    case NotPreloaded =>
      var read := dev.Read(part, 0, size);
      if read.0 != IoOk then Full(FromIo(read.0), [], false)
      else if |read.1| == size then Full(Ok, read.1, false) else Full(ErrorIo, [], false)
  }

  method LoadFullPartition(dev: Device, part: Name, size: u64)
    returns (ret: SlotResult, data: seq<byte>, preloaded: bool)
    requires dev.Valid()
    ensures Full(ret, data, preloaded) == FullPartition(dev, part, size)
    ensures ret == Ok || ret == ErrorOom || ret == ErrorIo
    ensures ret == Ok ==> |data| == size < ADDRESSABLE
    ensures ret == Ok ==> if preloaded then dev.preloaded(part, size) == Preloaded(data)
                          else part in dev.partitions && size <= |dev.partitions[part]| && data == dev.partitions[part][..size]
  {
    data, preloaded := [], false;
    match dev.preloaded(part, size)
    case PreloadFailed(io) =>
      ret := FromIo(io);
    case Preloaded(bytes) =>
      if |bytes| != size {
        return ErrorIo, [], false;
      }
      return Ok, bytes, true;
    case NotPreloaded =>
      var (io, bytes) := dev.Read(part, 0, size);
      if io != IoOk {
        return FromIo(io), [], false;
      }
      if |bytes| != size {
        return ErrorIo, [], false;
      }
      return Ok, bytes, false;
  }

  // -------------------------------------------- load_and_verify_hash_partition

  /** The name fits, and a digest that is kept per device does not depend on the slot. */
  predicate Nameable(d: HashDescriptor, suffix: Name)
  {
    |PartName(d, suffix)| < PART_NAME_MAX_SIZE && (d.flags % 2 != 0 || d.digest != [] || suffix == [])
  }

  /** Is the descriptor usable, and for which partition? */
  method NamePartition(d: HashDescriptor, suffix: Name) returns (part: Option<Name>)
    ensures part.Some? ==> part.value == PartName(d, suffix)
    ensures part.Some? <==> Nameable(d, suffix)
  {
    if d.flags % 2 != 0 {
      return if |d.name| >= PART_NAME_MAX_SIZE then None else Some(d.name);
    }
    if d.digest == [] && |suffix| != 0 {
      return None;
    }
    if |d.name| + |suffix| > PART_NAME_MAX_SIZE - 1 {
      return None;
    }
    part := Some(d.name + suffix);
  }

  method SaltedDigest(dev: Device, d: HashDescriptor, data: seq<byte>) returns (digest: Option<seq<byte>>)
    requires dev.Valid() && |d.salt| < B32 && |data| < ADDRESSABLE
    ensures digest == dev.DigestNamed(d.algorithm, d.salt + data)
  {
    JoinedTwo(d.salt, data);
    if CString(d.algorithm) == Ascii("sha256") {
      var v := DigestOfParts(dev.hashes.sha256, [d.salt, data]);
      digest := Some(v);
    } else if CString(d.algorithm) == Ascii("sha512") {
      var v := DigestOfParts(dev.hashes.sha512, [d.salt, data]);
      digest := Some(v);
    } else {
      digest := None;
    }
  }

  /** The algorithm field holds a name and zeros. */
  lemma AlgorithmNames(dev: Device, name: seq<byte>, m: seq<byte>)
    requires dev.Valid() && |name| <= 32 && NoNul(name)
    ensures dev.DigestNamed(name + Zeros(32 - |name|), m) ==
              if name == [0x73, 0x68, 0x61, 0x32, 0x35, 0x36] then Some(Digest(dev.hashes.sha256, m))
              else if name == [0x73, 0x68, 0x61, 0x35, 0x31, 0x32] then Some(Digest(dev.hashes.sha512, m))
              else None
  {
    hide Digest, Ascii;
    CStringOfField(name, 32 - |name|);
    ShaNames();
  }

  lemma ShaNames()
    ensures Ascii("sha256") == [0x73, 0x68, 0x61, 0x32, 0x35, 0x36] && Ascii("sha512") == [0x73, 0x68, 0x61, 0x35, 0x31, 0x32]
    ensures Ascii("sha1") == [0x73, 0x68, 0x61, 0x31]
  {
  }

  /** Which hash descriptors are refused, and with which result; stated for devices without read
      faults and preloaded partitions. Any other comes to what its digest says. */
  lemma HashRefused(run: Run, s: Snapshot, mem: Memory, k: nat, p: nat)
    requires run.dev.Valid()
    ensures ParseHash(mem, p).None? ==> HashStep(run, s, mem, k, p) == (ErrorInvalidMetadata, s)
    ensures ParseHash(mem, p).Some? ==>
              var d, r := ParseHash(mem, p).value, HashStep(run, s, mem, k, p);
              var part := if d.flags % 2 == 1 then d.name else d.name + run.suffix;
              && (!ValidUtf8(d.name) ==> r == (ErrorInvalidMetadata, s))
              && (ValidUtf8(d.name) && d.name !in run.requested ==> r == (Ok, s))
              && (ValidUtf8(d.name) && d.name in run.requested ==>
                    && (|part| >= 32 || (d.flags % 2 == 0 && d.digest == [] && run.suffix != []) ==> r == (ErrorInvalidMetadata, s))
                    && (|part| < 32 && (d.flags % 2 == 1 || d.digest != [] || run.suffix == []) && Plain(run.dev, part) ==>
                          HashPlain(run, s, d, part, r.0)))
  {
    hide ParseHash, ValidUtf8, Device.DigestNamed;
    if ParseHash(mem, p).Some? {
      var d := ParseHash(mem, p).value;
      var part := if d.flags % 2 == 1 then d.name else d.name + run.suffix;
      assert part == PartName(d, run.suffix);
      if ValidUtf8(d.name) && d.name in run.requested && |part| < 32 && (d.flags % 2 == 1 || d.digest != [] || run.suffix == [])
         && Plain(run.dev, part) {
        PartitionRefused(run, s, d, k, p, part);
      }
    }
  }

  /** Nothing is preloaded for the partition, and reading it does not fail. */
  ghost predicate Plain(dev: Device, part: Name)
  {
    && dev.sizeFault(part) == IoOk && (forall n :: dev.preloaded(part, n).NotPreloaded?)
    && forall o: int, n: nat :: dev.readFault(part, o, n) == IoOk
  }

  /** The result for a usable hash descriptor with a digest in it. */
  ghost predicate HashPlain(run: Run, s: Snapshot, d: HashDescriptor, part: Name, ret: SlotResult)
    requires run.dev.Valid()
  {
    if part !in run.dev.partitions || (!run.allow && |run.dev.partitions[part]| < d.imageSize) then ret == ErrorIo
    else
      var whole := run.dev.partitions[part];
      var hashed := if |whole| < d.imageSize then whole else whole[..d.imageSize];
      var digest := run.dev.DigestNamed(d.algorithm, d.salt + hashed);
      && (digest.None? ==> ret == ErrorInvalidMetadata)
      && (digest.Some? && d.digest != [] && |d.digest| != |digest.value| ==> ret == ErrorInvalidMetadata)
      && (digest.Some? && d.digest != [] && |d.digest| == |digest.value| ==>
            ret == if |s.loaded| == 32 then ErrorOom else if digest.value == d.digest then Ok else ErrorVerification)
  }

  lemma PartitionRefused(run: Run, s: Snapshot, d: HashDescriptor, k: nat, p: nat, part: Name)
    requires run.dev.Valid() && part == PartName(d, run.suffix) && Plain(run.dev, part)
    ensures HashPlain(run, s, d, part, PartitionStep(run, s, d, k, p).0)
  {
    hide Device.DigestNamed;
    if part in run.dev.partitions {
      var whole := run.dev.partitions[part];
      var size := if run.allow then |whole| else d.imageSize;
      if size <= |whole| {
        assert Stored(whole, 0, size) == Some(whole[..size]);
        assert FullPartition(run.dev, part, size) == Full(Ok, whole[..size], false);
        var hashed := if d.imageSize > size then size else d.imageSize;
        assert whole[..size][..hashed] == whole[..hashed];
        assert |whole| < d.imageSize && run.allow ==> whole[..hashed] == whole;
      }
    }
  }

  /** The comparison with the digest in the descriptor or the persistent one: the result and
      what becomes of the slot. */
  ghost function CompareStep(c: Conditions, s: Snapshot, d: HashDescriptor, part: Name, digest: seq<byte>): (SlotResult, Snapshot)
  {
    if d.digest == [] then
      var t := s.Asked(DigestCheck(c, part, digest));
      (CheckResult(t.store, c, part, digest), t)
    else (if |digest| != |d.digest| then ErrorInvalidMetadata else if digest == d.digest then Ok else ErrorVerification, s)
  }

  method CompareDigest(run: Run, ghost s: Snapshot, d: HashDescriptor, part: Name, digest: seq<byte>) returns (ret: SlotResult)
    requires |digest| > 0 && s.store == run.vals.store && s.log == run.vals.log
    modifies run.vals
    ensures (ret, s.(store := run.vals.store, log := run.vals.log)) == CompareStep(run.vals.c, s, d, part, digest)
    ensures KeepsDigests(old(run.vals.store), run.vals.store)
    ensures ret == Ok ==> if d.digest != [] then digest == d.digest
                          else DigestName(part) in run.vals.store && digest == run.vals.store[DigestName(part)]
    ensures d.digest == [] ==> run.vals.store == StoreAfterRead(old(run.vals.store), run.vals.c, part, Some(digest))
                               && ret == CheckResult(run.vals.store, run.vals.c, part, digest)
    ensures d.digest != [] ==> run.vals.store == old(run.vals.store)
    ensures d.digest != [] ==>
              ret == if |digest| != |d.digest| then ErrorInvalidMetadata else if digest == d.digest then Ok else ErrorVerification
  {
    if |d.digest| == 0 {
      EventKeepsDigests(run.vals.store, DigestCheck(run.vals.c, part, digest));
      ret := run.vals.CheckPersistentDigest(part, digest);
    } else if |digest| != |d.digest| {
      ret := ErrorInvalidMetadata;
    } else {
      ret := if digest == d.digest then Ok else ErrorVerification;
    }
  }

  /** A partition that matches, or fails only verification, is recorded, if there is room. */
  ghost function RecordStep(run: Run, s: Snapshot, d: HashDescriptor, k: nat, p: nat, l: LoadedPartition, digest: seq<byte>): (SlotResult, Snapshot)
  {
    var (ret, t) := CompareStep(run.vals.c, s, d, PartName(d, run.suffix), digest);
    if !ShouldContinue(ret) then (ret, t)
    else if |t.loaded| == MAX_LOADED_PARTITIONS then (ErrorOom, t)
    else (ret, t.(loaded := t.loaded + [l], hashOf := t.hashOf + [(k, p)]))
  }

  /** The partition of a usable hash descriptor: load, digest, compare, record. */
  ghost function PartitionStep(run: Run, s: Snapshot, d: HashDescriptor, k: nat, p: nat): (SlotResult, Snapshot)
    requires run.dev.Valid()
  {
    var part := PartName(d, run.suffix);
    var sized := if run.allow then run.dev.PartitionSize(part) else (IoOk, d.imageSize);
    if sized.0 != IoOk then (FromIo(sized.0), s)
    else
      var full := FullPartition(run.dev, part, sized.1);
      if full.ret != Ok then (full.ret, s)
      else
        var hashed := if d.imageSize > sized.1 then sized.1 else d.imageSize;
        match run.dev.DigestNamed(d.algorithm, d.salt + full.data[..hashed])
        case None => (ErrorInvalidMetadata, s)
        case Some(digest) => RecordStep(run, s, d, k, p, LoadedPartition(d.name, full.data, full.preloaded), digest)
  }

  /** The hash descriptor at offset p of image k, whose bytes are mem. */
  ghost function HashStep(run: Run, s: Snapshot, mem: Memory, k: nat, p: nat): (SlotResult, Snapshot)
    requires run.dev.Valid()
  {
    match ParseHash(mem, p)
    case None => (ErrorInvalidMetadata, s)
    case Some(d) =>
      if !ValidUtf8(d.name) then (ErrorInvalidMetadata, s)
      else if d.name !in run.requested then (Ok, s)
      else if !Nameable(d, run.suffix) then (ErrorInvalidMetadata, s)
      else PartitionStep(run, s, d, k, p)
  }

  /** Nothing but the loaded partitions and the store changes, and the store as logged; what is
      loaded comes from the device. */
  ghost predicate Loads(run: Run, s: Snapshot, t: Snapshot)
  {
    && t.images == s.images && t.chainOf == s.chainOf && t.rollbackIndexes == s.rollbackIndexes
    && s.hashOf <= t.hashOf && Extends(s, t) && Logged(s, t) && (Sourced(run, s) ==> Sourced(run, t))
  }

  /** Only the images and partitions matter. */
  lemma SourcedStays(run: Run, s: Snapshot, t: Snapshot)
    requires Sourced(run, s)
    requires t.images == s.images && t.chainOf == s.chainOf && t.loaded == s.loaded && t.hashOf == s.hashOf
    ensures Sourced(run, t)
  {
    hide ReadFrom, WholePartition, LoadedFor, AllDescriptors, ParseHash, ParseChain, VerifyResultOf;
    forall k | 0 <= k < |t.images| ensures Recorded(run, t, k) {
      assert Recorded(run, s, k);
    }
    forall k | 0 <= k < |t.loaded| ensures PartitionFrom(run, t, k) {
      assert PartitionFrom(run, s, k);
    }
  }

  lemma SourcedPartition(run: Run, s: Snapshot, l: LoadedPartition, from: (nat, nat))
    requires Sourced(run, s)
    requires if from.1 == 0 then l.name in run.requested && WholePartition(run, l)
             else
               && from.0 < |s.images| && from.1 in AllDescriptors(s.images[from.0].mem)
               && ParseHash(s.images[from.0].mem, from.1).Some?
               && LoadedFor(run, ParseHash(s.images[from.0].mem, from.1).value, l)
    ensures Sourced(run, s.(loaded := s.loaded + [l], hashOf := s.hashOf + [from]))
  {
    hide ReadFrom, WholePartition, LoadedFor, AllDescriptors, ParseHash, ParseChain, VerifyResultOf;
    var t := s.(loaded := s.loaded + [l], hashOf := s.hashOf + [from]);
    forall k | 0 <= k < |t.images| ensures Recorded(run, t, k) {
      assert Recorded(run, s, k);
    }
    forall k | 0 <= k < |t.loaded| ensures PartitionFrom(run, t, k) {
      if k < |s.loaded| {
        assert PartitionFrom(run, s, k);
      }
    }
  }

  lemma LoadsNothing(run: Run, s: Snapshot)
    ensures Loads(run, s, s)
  {
    ExtendsRefl(s);
    LoggedNothing(s, s);
  }

  /** One request to the store. */
  lemma LoadsAsked(run: Run, s: Snapshot, t: Snapshot, e: Event)
    requires e.Valid() && !e.ManageMode? && t == s.Asked(e).(substitutions := t.substitutions)
    ensures Loads(run, s, t)
  {
    hide Sourced, Event.After;
    EventKeepsDigests(s.store, e);
    LoggedOne(s, t, e);
    if Sourced(run, s) {
      SourcedStays(run, s, t);
    }
  }

  lemma CompareLoads(run: Run, s: Snapshot, d: HashDescriptor, part: Name, digest: seq<byte>)
    requires |digest| > 0
    ensures var (ret, t) := CompareStep(run.vals.c, s, d, part, digest);
            && Loads(run, s, t) && t.loaded == s.loaded && t.hashOf == s.hashOf
            && (ShouldContinue(ret) ==>
                  && (ret == Ok || ret == ErrorVerification)
                  && (ret == Ok <==> if d.digest != [] then digest == d.digest
                                     else DigestName(part) in t.store && digest == t.store[DigestName(part)]))
  {
    hide Loads;
    LoadsNothing(run, s);
    if d.digest == [] {
      LoadsAsked(run, s, s.Asked(DigestCheck(run.vals.c, part, digest)), DigestCheck(run.vals.c, part, digest));
    }
  }

  lemma SameImages(run: Run, s: Snapshot, t: Snapshot)
    requires Loads(run, s, t)
    ensures t.images == s.images && t.chainOf == s.chainOf && t.rollbackIndexes == s.rollbackIndexes && Extends(s, t) && Logged(s, t)
    ensures Sourced(run, s) ==> Sourced(run, t)
  {
  }

  lemma LoadsOneMore(run: Run, s: Snapshot, t: Snapshot, l: LoadedPartition, from: (nat, nat))
    requires Loads(run, s, t)
    requires if from.1 == 0 then l.name in run.requested && WholePartition(run, l)
             else
               && from.0 < |s.images| && from.1 in AllDescriptors(s.images[from.0].mem)
               && ParseHash(s.images[from.0].mem, from.1).Some?
               && LoadedFor(run, ParseHash(s.images[from.0].mem, from.1).value, l)
    ensures var u := t.(loaded := t.loaded + [l], hashOf := t.hashOf + [from]); Loads(run, s, u) && from in u.hashOf
  {
    hide Sourced, WholePartition, LoadedFor, AllDescriptors, ParseHash;
    var u := t.(loaded := t.loaded + [l], hashOf := t.hashOf + [from]);
    LoggedTrans(s, t, u) by {
      LoggedNothing(t, u);
    }
    assert u.hashOf[|t.hashOf|] == from;
    if Sourced(run, s) {
      SourcedPartition(run, t, l, from);
    }
  }

  /** What recording keeps. */
  lemma RecordLoads(run: Run, s: Snapshot, mem: Memory, k: nat, p: nat, d: HashDescriptor, l: LoadedPartition, digest: seq<byte>)
    requires run.dev.Valid() && s.Bounded() && k < |s.images| && s.images[k].mem == mem && p in AllDescriptors(mem) && p > 0
    requires |digest| > 0 && ParseHash(mem, p) == Some(d) && LoadedFor(run, d, l)
    requires Some(digest) == run.dev.DigestNamed(d.algorithm, d.salt + if |l.data| < d.imageSize then l.data else l.data[..d.imageSize])
    ensures var (ret, t) := RecordStep(run, s, d, k, p, l, digest);
            && t.Bounded() && Loads(run, s, t) && (ret == Ok ==> (k, p) in t.hashOf)
            && (ret == Ok && Verified(run, s) ==> Verified(run, t))
            && (ShouldContinue(ret) ==>
                  && t.loaded == s.loaded + [l] && (ret == Ok || ret == ErrorVerification)
                  && (ret == Ok <==> PartitionMatches(run.dev, t.store, run.suffix, d, l)))
  {
    hide ParseHash, AllDescriptors, Verified, VbmetaImage.Sized, KeepsDigests, Device.DigestNamed, Loads, LoadedFor, PartitionMatches, Extends,
         Logged, Sourced, PartName, DigestName;
    var part := PartName(d, run.suffix);
    CompareLoads(run, s, d, part, digest);
    var (ret, t) := CompareStep(run.vals.c, s, d, part, digest);
    hide CompareStep;
    SameImages(run, s, t);
    MatchIff(run, t.store, d, l, digest);
    if ShouldContinue(ret) && |t.loaded| < MAX_LOADED_PARTITIONS {
      LoadsOneMore(run, s, t, l, (k, p));
      if ret == Ok && Verified(run, s) {
        RecordVerifies(run, s, t, mem, k, p, d, l);
      }
    }
  }

  lemma MatchIff(run: Run, store: Store, d: HashDescriptor, l: LoadedPartition, digest: seq<byte>)
    requires run.dev.Valid()
    requires Some(digest) == run.dev.DigestNamed(d.algorithm, d.salt + if |l.data| < d.imageSize then l.data else l.data[..d.imageSize])
    ensures PartitionMatches(run.dev, store, run.suffix, d, l) <==>
              if d.digest != [] then digest == d.digest
              else DigestName(PartName(d, run.suffix)) in store && digest == store[DigestName(PartName(d, run.suffix))]
  {
    hide Device.DigestNamed, PartName, DigestName;
  }

  lemma RecordVerifies(run: Run, s: Snapshot, t: Snapshot, mem: Memory, k: nat, p: nat, d: HashDescriptor, l: LoadedPartition)
    requires Verified(run, s) && Extends(s, t) && t.loaded == s.loaded && t.hashOf == s.hashOf && t.images == s.images
    requires run.dev.Valid() && k < |s.images| && s.images[k].mem == mem && p in AllDescriptors(mem) && ParseHash(mem, p) == Some(d)
    requires LoadedFor(run, d, l) && PartitionMatches(run.dev, t.store, run.suffix, d, l)
    ensures Verified(run, t.(loaded := t.loaded + [l], hashOf := t.hashOf + [(k, p)]))
  {
    hide ParseHash, AllDescriptors, Verified, LoadedFor, PartitionMatches, Extends;
    assert PartitionVerified(run, t.store, mem, p, l);
    hide PartitionVerified;
    VerifiedStays(run, s, t);
    VerifiedAppend(run, t, l, k, p);
  }

  /** No hash descriptor stands at the start of an image, where the magic is. */
  lemma HashBehindMagic(mem: Memory, p: nat)
    requires p in AllDescriptors(mem) && ParseHash(mem, p).Some?
    ensures p > 0
  {
    hide Be32, Be64, Walk, Tag, Memory.Slice, RegionStart, RegionEnd;
    assert Tag(mem, p) == TAG_HASH;
    hide ParseHash;
    TagOfMagic(mem);
  }

  lemma TagOfMagic(mem: Memory)
    requires |mem.bytes| >= 8 && mem.bytes[0..4] == MAGIC
    ensures Tag(mem, 0) >= B32
  {
    hide BigEndian;
    var first := mem.bytes[0..8];
    assert first == MAGIC + mem.bytes[4..8];
    BigEndianConcat(MAGIC, mem.bytes[4..8]);
    Powers();
    MagicIsLarge();
  }

  lemma MagicIsLarge()
    ensures BigEndian(MAGIC) > 0
  {
    assert BigEndian(MAGIC) == BigEndian(MAGIC[..3]) * B8 + 0x30;
  }

  /** What the handling of a hash descriptor keeps. For a requested partition the result is Ok
      exactly if what was loaded matches, whether errors are allowed or not. */
  lemma HashLoads(run: Run, s: Snapshot, mem: Memory, k: nat, p: nat)
    requires run.dev.Valid() && s.Bounded() && k < |s.images| && s.images[k].mem == mem && p in AllDescriptors(mem)
    ensures var (ret, t) := HashStep(run, s, mem, k, p);
            && t.Bounded() && Loads(run, s, t)
            && (ret == Ok && Verified(run, s) ==> Verified(run, t))
            && (ret == Ok ==> ParseHash(mem, p).Some? && (ParseHash(mem, p).value.name in run.requested ==> (k, p) in t.hashOf))
            && (ret == Ok && ParseHash(mem, p).value.name !in run.requested ==> t.loaded == s.loaded)
            && (ShouldContinue(ret) ==> HashJudged(run, s, mem, p, ret, t))
  {
    hide ParseHash, AllDescriptors, Verified, ValidUtf8, VbmetaImage.Sized, RecordStep, Device.DigestNamed, Loads, LoadedFor, FullPartition,
         PartitionMatches;
    LoadsNothing(run, s);
    if ParseHash(mem, p).Some? {
      HashBehindMagic(mem, p);
      var d := ParseHash(mem, p).value;
      var part := PartName(d, run.suffix);
      var sized := if run.allow then run.dev.PartitionSize(part) else (IoOk, d.imageSize);
      if d.name in run.requested && sized.0 == IoOk {
        var full := FullPartition(run.dev, part, sized.1);
        if full.ret == Ok {
          var l := LoadedPartition(d.name, full.data, full.preloaded);
          FullLoads(run, d, sized.1);
          var hashed := if d.imageSize > sized.1 then sized.1 else d.imageSize;
          assert full.data[..hashed] == if |l.data| < d.imageSize then l.data else l.data[..d.imageSize];
          var digest := run.dev.DigestNamed(d.algorithm, d.salt + full.data[..hashed]);
          if digest.Some? {
            RecordLoads(run, s, mem, k, p, d, l, digest.value);
          }
        }
      }
    }
  }

  /** What a hash descriptor comes to, if the call can go on: a requested partition is loaded and
      matches, or is loaded and does not. */
  ghost predicate HashJudged(run: Run, s: Snapshot, mem: Memory, p: nat, ret: SlotResult, t: Snapshot)
    requires run.dev.Valid()
  {
    && ParseHash(mem, p).Some?
    && var d := ParseHash(mem, p).value;
       if d.name !in run.requested then ret == Ok && t == s
       else
         && |t.loaded| == |s.loaded| + 1 && LoadedFor(run, d, t.loaded[|s.loaded|])
         && ret == if PartitionMatches(run.dev, t.store, run.suffix, d, t.loaded[|s.loaded|]) then Ok else ErrorVerification
  }

  lemma FullLoads(run: Run, d: HashDescriptor, size: nat)
    requires run.dev.Valid() && d.name in run.requested
    requires if run.allow then run.dev.PartitionSize(PartName(d, run.suffix)) == (IoOk, size) else size == d.imageSize
    ensures var full := FullPartition(run.dev, PartName(d, run.suffix), size);
            full.ret == Ok ==> |full.data| == size && LoadedFor(run, d, LoadedPartition(d.name, full.data, full.preloaded))
  {
    var full := FullPartition(run.dev, PartName(d, run.suffix), size);
    hide FullPartition;
    assert full.ret == Ok ==> LoadedFrom(run.dev, PartName(d, run.suffix), LoadedPartition([], full.data, full.preloaded));
  }

  /** Loads the partition of the hash descriptor at offset p of image k, if it is requested. */
  method LoadAndVerifyHashPartition(run: Run, slot: SlotData, k: nat, p: nat) returns (ret: SlotResult)
    requires run.dev.Valid() && Snap(run, slot).Bounded() && k < |slot.images| && p in AllDescriptors(slot.images[k].mem)
    modifies slot`loaded, slot`hashOf, run.vals
    ensures (ret, Snap(run, slot)) == HashStep(run, old(Snap(run, slot)), slot.images[k].mem, k, p)
    ensures Snap(run, slot).Bounded() && Loads(run, old(Snap(run, slot)), Snap(run, slot))
    ensures ShouldContinue(ret) ==> HashJudged(run, old(Snap(run, slot)), slot.images[k].mem, p, ret, Snap(run, slot))
    ensures ret == Ok && Verified(run, old(Snap(run, slot))) ==> Verified(run, Snap(run, slot))
    ensures ret == Ok ==> ParseHash(slot.images[k].mem, p).Some?
    ensures ret == Ok && ParseHash(slot.images[k].mem, p).value.name in run.requested ==> (k, p) in slot.hashOf
    ensures ret == Ok && ParseHash(slot.images[k].mem, p).value.name !in run.requested ==> slot.loaded == old(slot.loaded)
  {
    hide ParseHash, AllDescriptors, ValidUtf8, Verified, VbmetaImage.Sized, Device.DigestNamed, Loads, PartitionStep,
         HashJudged;
    HashLoads(run, Snap(run, slot), slot.images[k].mem, k, p);
    var mem := slot.images[k].mem;
    var parsed := ParseHash(mem, p);
    if parsed.None? {
      return ErrorInvalidMetadata;
    }
    var d := parsed.value;
    var valid := ValidateUtf8(d.name);
    if !valid {
      return ErrorInvalidMetadata;
    }
    if d.name !in run.requested {
      return Ok;
    }
    var named := NamePartition(d, run.suffix);
    if named.None? {
      return ErrorInvalidMetadata;
    }
    ret := LoadNamed(run, slot, k, p, d, named.value);
  }

  /** The partition of a usable hash descriptor. */
  method LoadNamed(run: Run, slot: SlotData, k: nat, p: nat, d: HashDescriptor, part: Name) returns (ret: SlotResult)
    requires run.dev.Valid() && part == PartName(d, run.suffix) && |d.salt| < B32
    modifies slot`loaded, slot`hashOf, run.vals
    ensures (ret, Snap(run, slot)) == PartitionStep(run, old(Snap(run, slot)), d, k, p)
  {
    hide RecordStep, Device.DigestNamed, FullPartition, PartName, LoadedFrom;
    var size: nat := d.imageSize;
    if run.allow {
      var (io, actual) := run.dev.PartitionSize(part);
      if io != IoOk {
        return FromIo(io);
      }
      size := actual;
    }
    var data, preloaded;
    ret, data, preloaded := LoadFullPartition(run.dev, part, size);
    if ret != Ok {
      return;
    }
    var hashed := if d.imageSize > size then size else d.imageSize;
    var digest := SaltedDigest(run.dev, d, data[..hashed]);
    if digest.None? {
      return ErrorInvalidMetadata;
    }
    ret := RecordPartition(run, slot, k, p, d, part, LoadedPartition(d.name, data, preloaded), digest.value);
  }

  /** Compares the digest; a partition that matches, or fails only verification, is recorded. */
  method RecordPartition(run: Run, slot: SlotData, k: nat, p: nat, d: HashDescriptor, part: Name, l: LoadedPartition, digest: seq<byte>)
    returns (ret: SlotResult)
    requires |digest| > 0 && part == PartName(d, run.suffix)
    modifies slot`loaded, slot`hashOf, run.vals
    ensures (ret, Snap(run, slot)) == RecordStep(run, old(Snap(run, slot)), d, k, p, l, digest)
  {
    ret := CompareDigest(run, Snap(run, slot), d, part, digest);
    if ShouldContinue(ret) {
      if |slot.loaded| == MAX_LOADED_PARTITIONS {
        return ErrorOom;
      }
      slot.loaded := slot.loaded + [l];
      slot.hashOf := slot.hashOf + [(k, p)];
    }
  }

  lemma SameStore(s: Store)
    ensures KeepsDigests(s, s)
  {
  }
}
