/** avb_slot_verify.c with a vbmeta partition, on the slot data it updates in place: the methods
    do what the functions of SlotRun say, and so keep what SlotSafety proves. */
module SlotVerify {
  import opened Words
  import opened Vbmeta
  import opened Descriptors
  import opened Persist
  import opened Slot
  import opened SlotRun
  import opened SlotSafety
  import Sha

  // ------------------------------------------- finding and checking the image

  /** Where to look for the vbmeta struct: at the start, or where a footer says. */
  method LocateVbmeta(dev: Device, full: Name, lookForFooter: bool)
    returns (ret: SlotResult, offset: u64, size: nat)
    ensures Place(ret, offset, size) == Located(dev, full, lookForFooter)
    ensures ret in {Ok, ErrorOom, ErrorIo} && size <= VBMETA_MAX_SIZE
    ensures !lookForFooter ==> ret == Ok && offset == 0 && size == VBMETA_MAX_SIZE
    ensures lookForFooter ==> (ret == Ok <==> dev.Read(full, -FOOTER_SIZE, FOOTER_SIZE).0 == IoOk)
    ensures lookForFooter && ret == Ok ==>
              var footer := dev.Read(full, -FOOTER_SIZE, FOOTER_SIZE).1;
              if UsableFooter(footer) then offset == Be64(footer[20..28]) && size == Be64(footer[28..36])
              else offset == 0 && size == VBMETA_MAX_SIZE
  {
    ret, offset, size := Ok, 0, VBMETA_MAX_SIZE;
    if lookForFooter {
      var (io, footer) := dev.Read(full, -FOOTER_SIZE, FOOTER_SIZE);
      if io != IoOk {
        return FromIo(io), 0, VBMETA_MAX_SIZE;
      }
      if |footer| == FOOTER_SIZE && footer[..4] == FOOTER_MAGIC && Be32(footer[4..8]) <= 1 {
        if Be64(footer[28..36]) <= VBMETA_MAX_SIZE {
          offset, size := Be64(footer[20..28]), Be64(footer[28..36]);
        }
      }
    }
  }

  /** Reads the image. */
  method ReadVbmeta(run: Run, name: Name, lookForFooter: bool) returns (ret: SlotResult, io: IoResult, bytes: seq<byte>)
    requires run.dev.Valid()
    ensures Reading(ret, io, bytes) == ImageRead(run, name, lookForFooter)
    ensures ret == Ok ==> ReadFrom(run, name, lookForFooter, bytes)
  {
    hide ValidUtf8, CString, Located, Device.Read, ReadFrom;
    ReadsVbmeta(run, name, lookForFooter);
    ret, io, bytes := ErrorInvalidMetadata, IoOk, [];
    var valid := ValidateUtf8(name);
    if !valid || |name| + |run.suffix| > PART_NAME_MAX_SIZE - 1 {
      return;
    }
    var full := CString(name + run.suffix);
    var offset, size;
    ret, offset, size := LocateVbmeta(run.dev, full, lookForFooter);
    if ret != Ok {
      return;
    }
    var read := run.dev.Read(full, ToI64(offset), size);
    io, bytes := read.0, read.1;
    if io != IoOk {
      ret := FromIo(io);
    }
  }

  /** The checks between reading an image and recording it. */
  method CheckImage(dev: Device, allow: bool, mem: Memory, expectedKey: Option<seq<byte>>, location: u32)
    returns (ret: SlotResult, keep: bool, result: VerifyResult)
    requires dev.Valid() && |mem.bytes| < ADDRESSABLE
    ensures Checked(ret, keep, result) == ImageCheck(dev, allow, mem, expectedKey, location)
    ensures keep ==> |mem.bytes| >= HEADER_SIZE && BlocksFit(HeaderOf(mem.bytes), |mem.bytes|) && ShouldContinue(ret)
    ensures keep && expectedKey.Some? ==> HeaderOf(mem.bytes).flags == 0
    ensures keep && ret == Ok <==> Kept(dev, mem, expectedKey, location)
    ensures !allow && keep ==> ret == Ok
    ensures result == VerifyResultOf(dev.hashes, mem)
    ensures !keep ==> ret != Ok
    ensures allow && !keep ==> !ShouldContinue(ret)
  {
    CheckFacts(dev, allow, mem, expectedKey, location);
    CheckCodes(dev, allow, mem, expectedKey, location);
    hide HeaderOf, LayoutOf, Accepted, Metadata, HashMatches, RsaPasses, PublicKey, Kept;
    ret, keep := Ok, false;
    var key;
    result, key := VbmetaImageVerify(dev.hashes, mem);
    match result {
      case VerifyOk =>
      case OkNotSigned | HashMismatch | SignatureMismatch =>
        ret := ErrorVerification;
        if !allow {
          return;
        }
      case InvalidVbmetaHeader =>
        ret := ErrorInvalidMetadata;
        return;
      case UnsupportedVersion =>
        ret := ErrorUnsupportedVersion;
        return;
    }
    HasHeader(mem.bytes);
    var header := HeaderOf(mem.bytes);
    if expectedKey.Some? && header.flags != 0 {
      ret := ErrorInvalidMetadata;
      return;
    }
    if key.Some? {
      var rejected, io := CheckKey(dev, mem, key.value, expectedKey);
      if io != IoOk {
        ret := FromIo(io);
        return;
      }
      if rejected {
        ret := ErrorPublicKeyRejected;
        if !allow {
          return;
        }
      }
    }
    var (io, stored) := dev.rollbackIndex(location);
    if io != IoOk {
      ret := FromIo(io);
      return;
    }
    if header.rollbackIndex < stored {
      ret := ErrorRollbackIndex;
      if !allow {
        return;
      }
    }
    keep := true;
  }

  method CheckKey(dev: Device, mem: Memory, key: seq<byte>, expectedKey: Option<seq<byte>>)
    returns (rejected: bool, io: IoResult)
    requires |mem.bytes| >= HEADER_SIZE
    ensures (io, rejected) == KeyRejected(dev, mem, key, expectedKey)
  {
    if expectedKey.Some? {
      return |expectedKey.value| != |key| || expectedKey.value != key, IoOk;
    }
    var (result, trusted) := dev.trusts(key, Metadata(mem));
    return !trusted, result;
  }

  // ------------------------------------------------- load_requested_partitions

  /** VERIFICATION_DISABLED: whole partitions are loaded, in the order requested. */
  method LoadRequestedPartitions(run: Run, slot: SlotData) returns (ret: SlotResult)
    requires run.dev.Valid() && Snap(run, slot).Bounded()
    modifies slot`loaded, slot`hashOf
    ensures (ret, Snap(run, slot)) == RequestedFrom(run, old(Snap(run, slot)), 0)
    ensures Snap(run, slot).Bounded() && Loads(run, old(Snap(run, slot)), Snap(run, slot))
    ensures RequestedAdded(run, 0, old(slot.loaded), slot.loaded)
    ensures ret == Ok ==> |slot.loaded| == |old(slot.loaded)| + |run.requested|
    ensures ret == Ok || !ShouldContinue(ret)
  {
    hide VbmetaImage.Sized, RequestedAdded, Requested, Loads;
    RequestedFacts(run, Snap(run, slot), 0);
    ret := Ok;
    var n := 0;
    while n < |run.requested|
      invariant 0 <= n <= |run.requested| && ret == Ok
      invariant RequestedFrom(run, Snap(run, slot), n) == RequestedFrom(run, old(Snap(run, slot)), 0)
    {
      var data, preloaded;
      ret, data, preloaded := LoadRequested(run, run.requested[n]);
      if ret != Ok {
        return;
      }
      if |slot.loaded| == MAX_LOADED_PARTITIONS {
        return ErrorOom;
      }
      slot.loaded := slot.loaded + [LoadedPartition(run.requested[n], data, preloaded)];
      slot.hashOf := slot.hashOf + [(0, 0)];
      n := n + 1;
    }
  }

  /** One requested partition, in full. */
  method LoadRequested(run: Run, name: Name) returns (ret: SlotResult, data: seq<byte>, preloaded: bool)
    requires run.dev.Valid()
    ensures Full(ret, data, preloaded) == Requested(run, name)
    ensures ret == Ok || !ShouldContinue(ret)
    ensures ret == Ok && !preloaded ==> name + run.suffix in run.dev.partitions && data == run.dev.partitions[name + run.suffix]
  {
    if |name| + |run.suffix| > PART_NAME_MAX_SIZE - 1 {
      return ErrorInvalidMetadata, [], false;
    }
    var part := name + run.suffix;
    var (io, size) := run.dev.PartitionSize(part);
    if io != IoOk {
      return FromIo(io), [], false;
    }
    ret, data, preloaded := LoadFullPartition(run.dev, part, size);
  }

  // ------------------------------------------------------- one descriptor

  /** The persistent root digest of a hashtree descriptor that carries none. */
  method LookupRootDigest(run: Run, slot: SlotData, d: HashtreeDescriptor, isMain: bool) returns (ret: SlotResult)
    modifies slot`substitutions, run.vals
    ensures (ret, Snap(run, slot)) == LookupStep(run, old(Snap(run, slot)), d, isMain)
    ensures run.vals.store == old(run.vals.store)
    ensures !LookupAllowed(d, run.suffix) ==> ret == ErrorInvalidMetadata
    ensures LookupAllowed(d, run.suffix) ==>
              var read := ReadResult(run.vals.store, run.vals.c, CString(d.name), DigestLength(d.algorithm), None);
              ret == if read == Ok && isMain && old(slot.substitutions) >= MAX_SUBSTITUTIONS then ErrorInvalidMetadata else read
  {
    hide ReadResult, DigestLength, ValidUtf8, CString;
    var valid := ValidateUtf8(d.name);
    if !valid || (d.flags % 2 == 0 && |run.suffix| != 0) || |d.name| >= PART_NAME_MAX_SIZE {
      return ErrorInvalidMetadata;
    }
    var length := DigestLength(d.algorithm);
    if length == 0 {
      return ErrorInvalidMetadata;
    }
    var digest;
    ret, digest := run.vals.LookupPersistentDigest(CString(d.name), length);
    if ret == Ok && isMain {
      if slot.substitutions >= MAX_SUBSTITUTIONS {
        return ErrorInvalidMetadata;
      }
      slot.substitutions := slot.substitutions + 1;
    }
  }

  /** The chain descriptor at offset p of the top-level image. */
  method FollowChain(run: Run, slot: SlotData, p: nat, ghost depth: nat) returns (o: Outcome)
    requires run.dev.Valid() && Snap(run, slot).Bounded() && |slot.images| > 0 && p in AllDescriptors(slot.images[0].mem)
    requires depth + 2 <= 4
    modifies slot`images, slot`chainOf, slot`loaded, slot`hashOf, slot`rollbackIndexes, slot`substitutions, run.vals
    ensures (o, Snap(run, slot)) == ChainStep(run, old(Snap(run, slot)), old(slot.images[0].mem), p)
    decreases 1, 5
  {
    hide ParseChain, AllDescriptors, Load, VbmetaImage.Sized, LoadKept;
    var mem := slot.images[0].mem;
    var chain := ParseChain(mem, p);
    if chain.None? || chain.value.rollbackLocation == 0 {
      return Malformed;
    }
    NameOfChain(mem, p);
    ghost var outcomes;
    var sub;
    sub, outcomes := LoadAndVerifyVbmeta(run, slot, ToI32(chain.value.rollbackLocation), NameMemory(mem, p, chain.value),
                                         |chain.value.name|, Some(chain.value.key), p, depth + 1);
    o := Chain(sub);
  }

  /** A descriptor that does not lead to another image. */
  method HandlePlain(run: Run, slot: SlotData, isMain: bool, k: nat, p: nat) returns (o: Outcome)
    requires run.dev.Valid() && Snap(run, slot).Bounded() && k < |slot.images| && p in AllDescriptors(slot.images[k].mem)
    modifies slot`loaded, slot`hashOf, slot`substitutions, run.vals
    ensures (o, Snap(run, slot)) == PlainStep(run, old(Snap(run, slot)), isMain, slot.images[k].mem, k, p)
  {
    hide ParseHashtree, ParseCmdline, AllDescriptors, ValidUtf8, Tag, VbmetaImage.Sized, HashStep, LookupStep;
    var mem := slot.images[k].mem;
    var tag := Tag(mem, p);
    o := Skipped;
    if tag == TAG_HASH {
      var sub := LoadAndVerifyHashPartition(run, slot, k, p);
      o := Hash(sub);
    } else if tag == TAG_KERNEL_CMDLINE {
      var cmdline := ParseCmdline(mem, p);
      if cmdline.None? {
        return Malformed;
      }
      var valid := ValidateUtf8(cmdline.value);
      if !valid {
        o := Malformed;
      }
    } else if tag == TAG_HASHTREE {
      var d := ParseHashtree(mem, p);
      if d.None? {
        o := Malformed;
      } else if d.value.rootDigestLen == 0 {
        var r := LookupRootDigest(run, slot, d.value, isMain);
        o := Tree(r);
      }
    }
  }

  /** One turn of the loop over the descriptors. */
  method HandleDescriptor(run: Run, slot: SlotData, isMain: bool, k: nat, p: nat, ghost depth: nat) returns (o: Outcome)
    requires run.dev.Valid() && Snap(run, slot).Bounded() && k < |slot.images| && p in AllDescriptors(slot.images[k].mem)
    requires isMain ==> k == 0 && depth + 2 <= 4
    modifies slot`images, slot`chainOf, slot`loaded, slot`hashOf, slot`rollbackIndexes, slot`substitutions, run.vals
    ensures (o, Snap(run, slot)) == Turn(run, old(Snap(run, slot)), isMain, old(slot.images[k].mem), k, p)
    ensures TurnKept(run, old(Snap(run, slot)), isMain, k, p, o, Snap(run, slot))
    ensures OutcomeOf(old(slot.images[k].mem), p, isMain, o)
    decreases if isMain then 2 else 1, 0
  {
    hide AllDescriptors, Tag, Following, VbmetaImage.Sized, PlainStep, ChainStep, TurnKept, OutcomeOf;
    var mem := slot.images[k].mem;
    TurnKeeps(run, Snap(run, slot), isMain, mem, k, p);
    TurnKind(run, Snap(run, slot), isMain, mem, k, p);
    if Following(mem, p) % 8 != 0 {
      return Malformed;
    }
    if Tag(mem, p) == TAG_CHAIN_PARTITION {
      if !isMain {
        return Malformed;
      }
      o := FollowChain(run, slot, p, depth);
    } else {
      o := HandlePlain(run, slot, isMain, k, p);
    }
  }

  method ProcessDescriptors(run: Run, slot: SlotData, isMain: bool, k: nat, ret0: SlotResult, ghost depth: nat)
    returns (ret: SlotResult, stop: bool, ghost outcomes: seq<Outcome>)
    requires run.dev.Valid() && Snap(run, slot).Bounded() && k < |slot.images|
    requires isMain ==> k == 0 && depth + 2 <= 4
    modifies slot`images, slot`chainOf, slot`loaded, slot`hashOf, slot`rollbackIndexes, slot`substitutions, run.vals
    ensures Processed(ret, stop, Snap(run, slot), outcomes)
         == Turns(run, old(Snap(run, slot)), isMain, old(slot.images[k].mem), k, ret0, [], 0)
    ensures ProcessKept(run, old(Snap(run, slot)), isMain, old(slot.images[k].mem), k, ret0,
                        Processed(ret, stop, Snap(run, slot), outcomes))
    decreases if isMain then 2 else 1, 1, 0
  {
    hide AllDescriptors, Turn, Turns, TurnKept, LoopKept, ProcessKept, OutcomeOf, Assigned, Stops, VbmetaImage.Sized;
    var mem := slot.images[k].mem;
    ghost var first := Snap(run, slot);
    LoopStarts(run, first, isMain, k, ret0);
    TurnsKeep(run, first, isMain, mem, k, ret0, ret0, []);
    var all, count := GetDescriptors(run, slot.images[k]);
    ret, stop, outcomes := ret0, false, [];
    var n := 0;
    while n < count
      invariant 0 <= n <= count && |outcomes| == n && all[..count] == AllDescriptors(mem)
      invariant LoopKept(run, Snap(run, slot), isMain, mem, k, ret0, ret, outcomes)
      invariant Turns(run, Snap(run, slot), isMain, mem, k, ret, outcomes, n) == Turns(run, first, isMain, mem, k, ret0, [], 0)
    {
      ghost var before := Snap(run, slot);
      LoopFacts(run, before, isMain, mem, k, ret0, ret, outcomes);
      TurnsNext(run, before, isMain, mem, k, ret, outcomes, n);
      var o := HandleDescriptor(run, slot, isMain, k, all[n], depth);
      stop := Stops(run.allow, o);
      if !stop {
        LoopNext(run, before, isMain, mem, k, ret0, ret, outcomes, o, Snap(run, slot));
      }
      ret := Assigned(ret, o);
      outcomes := outcomes + [o];
      n := n + 1;
      if stop {
        return;
      }
    }
    TurnsNext(run, Snap(run, slot), isMain, mem, k, ret, outcomes, n);
  }

  method GetDescriptors(run: Run, image: VbmetaImage) returns (all: array<nat>, count: nat)
    requires run.dev.Valid() && image.Sized()
    ensures count == |AllDescriptors(image.mem)| && all.Length == count + 1
    ensures all[..count] == AllDescriptors(image.mem)
  {
    all, count := DescriptorGetAll(image.mem, run.dev.bufferAddress);
  }

  // ---------------------------------------------------- load_and_verify_vbmeta

  /** Records an image that passed the checks. */
  method RecordImage(run: Run, slot: SlotData, image: VbmetaImage, ghost p: nat)
    modifies slot`images, slot`chainOf
    ensures Snap(run, slot) == WithImage(old(Snap(run, slot)), image, p)
  {
    slot.images := slot.images + [image];
    slot.chainOf := slot.chainOf + [p];
  }

  /** load_and_verify_vbmeta. The calls are nested at most three deep. */
  method LoadAndVerifyVbmeta(run: Run, slot: SlotData, location: int, nameMem: seq<byte>, nameLen: nat,
                             expectedKey: Option<seq<byte>>, ghost p: nat, ghost depth: nat)
    returns (ret: SlotResult, ghost outcomes: seq<Outcome>)
    requires run.dev.Valid() && Snap(run, slot).Bounded() && nameLen <= |nameMem|
    requires Called(Snap(run, slot), location, nameMem, nameLen, expectedKey, p)
    requires depth + Rank(location, nameMem) <= 4
    modifies slot`images, slot`chainOf, slot`loaded, slot`hashOf, slot`rollbackIndexes, slot`substitutions, run.vals
    ensures Loaded(ret, Snap(run, slot), outcomes) == Load(run, old(Snap(run, slot)), location, nameMem, nameLen, expectedKey, p)
    ensures LoadKept(run, old(Snap(run, slot)), location, p, Loaded(ret, Snap(run, slot), outcomes))
    decreases Rank(location, nameMem), 4
  {
    hide LoadKept, Examine, ImageRead, ReadFrom;
    LoadKeeps(run, Snap(run, slot), location, nameMem, nameLen, expectedKey, p);
    outcomes := [];
    var isMain, lookForFooter := location == 0, !IsVbmetaName(nameMem);
    var io, bytes;
    ret, io, bytes := ReadVbmeta(run, nameMem[..nameLen], lookForFooter);
    if io != IoOk && isMain && io == NoSuchPartition && !lookForFooter {
      ret, outcomes := LoadAndVerifyVbmeta(run, slot, 0, Literal("boot"), 4, None, p, depth + 1);
      return;
    }
    if ret != Ok {
      return;
    }
    ret, outcomes := ExamineImage(run, slot, location, nameMem, nameLen, expectedKey, p, Memory(bytes, run.dev.behind), depth);
  }

  /** The part of load_and_verify_vbmeta that follows the reading. */
  method ExamineImage(run: Run, slot: SlotData, location: int, nameMem: seq<byte>, ghost nameLen: nat,
                      expectedKey: Option<seq<byte>>, ghost p: nat, mem: Memory, ghost depth: nat)
    returns (ret: SlotResult, ghost outcomes: seq<Outcome>)
    requires run.dev.Valid() && Snap(run, slot).Bounded() && nameLen <= |nameMem|
    requires Called(Snap(run, slot), location, nameMem, nameLen, expectedKey, p)
    requires ReadFrom(run, nameMem[..nameLen], !IsVbmetaName(nameMem), mem.bytes) && |mem.bytes| <= VBMETA_MAX_SIZE
    requires location == 0 ==> depth + 2 <= 4
    modifies slot`images, slot`chainOf, slot`loaded, slot`hashOf, slot`rollbackIndexes, slot`substitutions, run.vals
    ensures Loaded(ret, Snap(run, slot), outcomes) == Examine(run, old(Snap(run, slot)), location, nameMem, expectedKey, p, mem)
    decreases if location == 0 then 2 else 1, 3
  {
    hide Called, HeaderOf, ImageCheck, CString, ReadFrom, Kept, After, Grows, Settled, VerifyResultOf, VbmetaImage.Sized, IsVbmetaName,
         Snapshot.Bounded, Examine, ImageOf, ChainCall, ChainName, WithImage, BlocksFit, Ascii;
    ExamineCases(run, Snap(run, slot), location, nameMem, expectedKey, p, mem);
    outcomes := [];
    var keep, result;
    ret, keep, result := CheckImage(run.dev, run.allow, mem, expectedKey, location % B32);
    if !keep {
      return;
    }
    if |slot.images| == MAX_VBMETA_IMAGES {
      return ErrorOom, [];
    }
    var image := ImageOf(nameMem, mem, result);
    CallFacts(Snap(run, slot), location, nameMem, nameLen, expectedKey, p);
    ImageEnters(run, Snap(run, slot), location, nameMem, nameLen, expectedKey, p, mem);
    RecordImage(run, slot, image, p);
    ret, outcomes := AfterRecording(run, slot, location, ret, depth);
  }

  /** The three ways an examination goes on. */
  lemma ExamineCases(run: Run, s: Snapshot, location: int, nameMem: seq<byte>, expectedKey: Option<seq<byte>>, p: nat, mem: Memory)
    requires run.dev.Valid()
    ensures var check, r := ImageCheck(run.dev, run.allow, mem, expectedKey, location % B32),
                            Examine(run, s, location, nameMem, expectedKey, p, mem);
            && (s.Bounded() ==> |s.images| <= MAX_VBMETA_IMAGES)
            && (!check.keep ==> r == Loaded(check.ret, s, []))
            && (check.keep && |s.images| == MAX_VBMETA_IMAGES ==> r == Loaded(ErrorOom, s, []))
            && (check.keep && |s.images| != MAX_VBMETA_IMAGES && |mem.bytes| >= HEADER_SIZE ==>
                  r == After(run, WithImage(s, ImageOf(nameMem, mem, check.result), p), location, mem, |s.images|, check.ret))
  {
    hide ImageCheck, After, ImageOf, WithImage;
  }

  /** From the recorded image on: its partitions or descriptors, then its rollback index. */
  method AfterRecording(run: Run, slot: SlotData, location: int, ret0: SlotResult, ghost depth: nat)
    returns (ret: SlotResult, ghost outcomes: seq<Outcome>)
    requires run.dev.Valid() && Snap(run, slot).Bounded() && |slot.images| > 0
    requires location == 0 ==> |slot.images| == 1 && depth + 2 <= 4
    modifies slot`images, slot`chainOf, slot`loaded, slot`hashOf, slot`rollbackIndexes, slot`substitutions, run.vals
    ensures var k := |old(slot.images)| - 1;
            Loaded(ret, Snap(run, slot), outcomes) == After(run, old(Snap(run, slot)), location, old(slot.images[k].mem), k, ret0)
    decreases if location == 0 then 2 else 1, 2
  {
    hide HeaderOf, Turns, RequestedFrom, RollbackStep, Loads, RequestedAdded;
    var k := |slot.images| - 1;
    var mem := slot.images[k].mem;
    assert slot.images[k].Sized();
    hide VbmetaImage.Sized;
    outcomes := [];
    ret := ret0;
    if VerificationDisabled(mem) {
      var sub := LoadRequestedPartitions(run, slot);
      if sub != Ok {
        ret := sub;
      }
      return;
    }
    ret, outcomes := ProcessAndRecord(run, slot, location, k, HeaderOf(mem.bytes).rollbackIndex, ret0, depth);
  }

  /** The descriptors of an image, then its rollback index. */
  method ProcessAndRecord(run: Run, slot: SlotData, location: int, k: nat, rollbackIndex: u64, ret0: SlotResult, ghost depth: nat)
    returns (ret: SlotResult, ghost outcomes: seq<Outcome>)
    requires run.dev.Valid() && Snap(run, slot).Bounded() && k < |slot.images|
    requires location == 0 ==> k == 0 && depth + 2 <= 4
    modifies slot`images, slot`chainOf, slot`loaded, slot`hashOf, slot`rollbackIndexes, slot`substitutions, run.vals
    ensures Loaded(ret, Snap(run, slot), outcomes)
         == RollbackStep(location, rollbackIndex,
                         Turns(run, old(Snap(run, slot)), location == 0, old(slot.images[k].mem), k, ret0, [], 0))
    decreases if location == 0 then 2 else 1, 1, 1
  {
    hide Turns, ProcessKept, VbmetaImage.Sized;
    ghost var before, mem := Snap(run, slot), slot.images[k].mem;
    var stop;
    ret, stop, outcomes := ProcessDescriptors(run, slot, location == 0, k, ret0, depth);
    ProcessBounded(run, before, location == 0, mem, k, ret0, Processed(ret, stop, Snap(run, slot), outcomes));
    if stop {
      return;
    }
    if location < 0 || location >= ROLLBACK_LOCATIONS {
      return ErrorInvalidMetadata, outcomes;
    }
    slot.rollbackIndexes := slot.rollbackIndexes[location := rollbackIndex];
  }

  // ------------------------------------------------------------ avb_slot_verify

  /** avb_slot_verify_data_calculate_vbmeta_digest with SHA-256. */
  method VbmetaDigest(dev: Device, images: seq<VbmetaImage>) returns (digest: seq<byte>)
    requires dev.Valid() && |images| <= MAX_VBMETA_IMAGES && forall k :: 0 <= k < |images| ==> images[k].Sized()
    ensures digest == Sha.Digest(dev.hashes.sha256, Sha.Joined(ImageParts(images))) == VbmetaDigestOf(dev, images)
    ensures |digest| == 32
  {
    PartsFit(images);
    digest := Sha.DigestOfParts(dev.hashes.sha256, ImageParts(images));
  }

  /** One more struct: its own bytes, without what was read behind it. */
  lemma PartsNext(images: seq<VbmetaImage>, image: VbmetaImage)
    requires image.Sized()
    ensures Sha.Joined(ImageParts([])) == []
    ensures Sha.Joined(ImageParts(images + [image])) == Sha.Joined(ImageParts(images)) + image.mem.bytes[..image.size]
  {
    var parts := ImageParts(images + [image]);
    assert parts[..|images|] == ImageParts(images);
  }

  lemma {:induction false} PartsFit(images: seq<VbmetaImage>)
    requires forall k :: 0 <= k < |images| ==> images[k].Sized()
    ensures |Sha.Joined(ImageParts(images))| <= |images| * VBMETA_MAX_SIZE
  {
    if images != [] {
      var n := |images| - 1;
      PartsFit(images[..n]);
      assert ImageParts(images)[..n] == ImageParts(images[..n]);
    }
  }

  /** The steps after the images are loaded, which are skipped if verification is disabled. */
  method Finish(run: Run, slot: SlotData, corruption: bool, requested: ErrorMode) returns (ret: SlotResult)
    requires run.dev.Valid() && Snap(run, slot).Bounded() && |slot.images| > 0 && slot.mode == Restart
    modifies slot`mode, run.vals
    ensures var f := Finishing(run, old(Snap(run, slot)), corruption, requested);
            ret == f.ret && Snap(run, slot) == f.s && (ret == Ok ==> slot.mode == f.mode)
    ensures VerificationDisabled(slot.images[0].mem) ==> ret == Ok && Snap(run, slot) == old(Snap(run, slot))
    ensures !VerificationDisabled(slot.images[0].mem) && requested != ManagedRestartAndEio ==>
              ret == run.dev.optionsResult && Snap(run, slot) == old(Snap(run, slot))
    ensures !VerificationDisabled(slot.images[0].mem) && requested == ManagedRestartAndEio ==>
              var io := ModeIo(old(run.vals.store), run.vals.c, corruption, VbmetaDigestOf(run.dev, slot.images));
              ret == if io == IoOom then ErrorOom else if io != IoOk then ErrorIo else run.dev.optionsResult
  {
    hide HeaderOf, VbmetaImage.Sized, VbmetaDigestOf;
    ret := Ok;
    if VerificationDisabled(slot.images[0].mem) {
      return;
    }
    var mode := requested;
    if requested == ManagedRestartAndEio {
      var digest := VbmetaDigest(run.dev, slot.images);
      var io;
      io, mode := run.vals.ManageHashtreeErrorMode(corruption, digest);
      if io != IoOk {
        return FromIo(io);
      }
    }
    slot.mode := mode;
    ret := run.dev.optionsResult;
  }

  /** With a vbmeta partition. In strict mode, data comes back exactly with result Ok, and then
      every image is trusted, every loaded partition verified and every descriptor acted on,
      unless a lookup hides a failed chained image. Result, data and store are functions of the
      device, the arguments and the store. */
  method AvbSlotVerify(run: Run, corruption: bool, requested: ErrorMode)
    returns (ret: SlotResult, data: SlotData?, ghost outcomes: seq<Outcome>)
    requires run.dev.Valid()
    modifies run.vals
    ensures ret == ResultOf(run, old(run.vals.store), old(run.vals.log), corruption, requested)
    ensures !BadArguments(run, requested) ==> outcomes == Loading(run, old(run.vals.store), old(run.vals.log)).outcomes
    ensures CallLogged(requested == ManagedRestartAndEio, old(run.vals.store), old(run.vals.log), run.vals.store, run.vals.log)
    ensures KeepsDigests(old(run.vals.store), run.vals.store)
    ensures data != null ==> fresh(data) && |data.images| > 0
    ensures data != null ==>
              var r := Loading(run, old(run.vals.store), old(run.vals.log));
              r.s.images != [] && Snap(run, data) == Finishing(run, r.s, corruption, requested).s
    ensures data != null ==> DataKept(run, Snap(run, data), ret, outcomes)
    ensures data != null && ret == Ok ==> OkMeans(run, Snap(run, data), outcomes)
    ensures data != null && !VerificationDisabled(data.images[0].mem) ==> run.dev.optionsResult == Ok
    ensures !run.allow ==> (data != null <==> ret == Ok)
    ensures (requested == Logging && !run.allow) || (requested == ManagedRestartAndEio && !run.vals.c.implemented) ==>
              ret == ErrorInvalidArgument && data == null
    ensures run.allow && data != null ==> ret in {Ok, ErrorVerification, ErrorRollbackIndex, ErrorPublicKeyRejected}
    ensures run.allow && data == null && ShouldContinue(ret) ==> ret == run.dev.optionsResult
    ensures data != null ==>
              ModeKept(run, old(run.vals.store), old(run.vals.log), Snap(run, data), corruption, requested, data.mode)
  {
    hide Load, Finishing, LoadKept, DataKept, OkMeans, HeaderOf, CallLogged, ModeKept, KeepsDigests, Logged, Snapshot.Bounded;
    ghost var store, log := run.vals.store, run.vals.log;
    data, outcomes := null, [];
    SameStore(store);
    NothingAsked(requested == ManagedRestartAndEio, store, log);
    if requested == Logging && !run.allow {
      return ErrorInvalidArgument, null, [];
    }
    if requested == ManagedRestartAndEio && !run.vals.c.implemented {
      return ErrorInvalidArgument, null, [];
    }
    var slot := new SlotData();
    assert Snap(run, slot) == Fresh(store, log);
    FreshBounded(store, log);
    ret, outcomes := LoadAndVerifyVbmeta(run, slot, 0, Literal("vbmeta"), 6, None, 0, 1);
    ghost var loaded := Loaded(ret, Snap(run, slot), outcomes);
    LoadedFacts(run, store, log, loaded);
    if (!run.allow && ret != Ok) || !ShouldContinue(ret) {
      return;
    }
    var sub := Finish(run, slot, corruption, requested);
    FinishFacts(run, store, log, loaded, corruption, requested);
    if GoesOn(run.allow, ret) {
      OkFacts(run, Snap(run, slot), ret, outcomes);
    }
    if sub != Ok {
      return sub, null, outcomes;
    }
    data := slot;
  }

  /** What the store was asked for in a call: digest checks and lookups, then, if the error mode
      is managed, at most one question about it. */
  ghost predicate CallLogged(managed: bool, store: Store, log: seq<Event>, store': Store, log': seq<Event>)
  {
    && |log| <= |log'| && log'[..|log|] == log
    && var events := log'[|log|..];
       && AllValid(events) && store' == StoreAfter(store, events)
       && forall i :: 0 <= i < |events| - (if managed then 1 else 0) ==> !events[i].ManageMode?
  }

  /** The error mode was resolved last, with the digest of the images loaded, and it is what the
      store remembers. */
  ghost predicate ModeFromStore(run: Run, store: Store, log: seq<Event>, s: Snapshot, corruption: bool, mode: ErrorMode)
    requires run.dev.Valid()
  {
    var n, digest := |s.log| - 1, VbmetaDigestOf(run.dev, s.images);
    && |log| <= n && s.log[n] == ManageMode(run.vals.c, corruption, digest)
    && ModeResolved(StoreAfter(store, s.log[|log|..n]), run.vals.c, corruption, digest)
    && mode == if MANAGED_VERITY_MODE in s.store then Eio else Restart
  }

  ghost predicate ModeKept(run: Run, store: Store, log: seq<Event>, s: Snapshot, corruption: bool, requested: ErrorMode, mode: ErrorMode)
    requires run.dev.Valid() && s.images != []
  {
    if VerificationDisabled(s.images[0].mem) then mode == Restart
    else if requested == ManagedRestartAndEio then ModeFromStore(run, store, log, s, corruption, mode)
    else mode == requested
  }

  /** What comes back with the data: everything in it comes from the device, and result and outcomes
      are explained by the checks on the top-level image and its descriptors; in strict mode all
      images are trusted, and if all outcomes are sure the data is complete. */
  ghost predicate DataKept(run: Run, s: Snapshot, ret: SlotResult, outcomes: seq<Outcome>)
  {
    && s.Bounded() && s.images != [] && Sourced(run, s)
    && (!run.allow ==> Trusted(run, s))
    && Ends(run, s.images[0].mem, TopResult(run, s.images[0].mem), Loaded(ret, s, outcomes))
    && (!VerificationDisabled(s.images[0].mem) && !CutShort(run.allow, outcomes) ==>
          RollbackRecorded(s.images[0].mem, 0, s.rollbackIndexes, s.rollbackIndexes))
  }

  /** What Ok means for the data: if no failure could be hidden by a digest lookup, every descriptor
      passed, and if there is no lookup at all, the top-level image is trusted, whether errors are
      allowed or not. */
  ghost predicate OkMeans(run: Run, s: Snapshot, outcomes: seq<Outcome>)
    requires run.dev.Valid() && s.images != []
  {
    var mem := s.images[0].mem;
    && (VerificationDisabled(mem) || NoLookup(mem) ==> RootTrusted(run, s.images[0]))
    && (!VerificationDisabled(mem) && NoLateLookup(run.allow, mem) ==> AllPassed(outcomes))
    && (!VerificationDisabled(mem) && NoLateLookup(run.allow, mem) && (run.allow ==> NoChains(mem)) ==> Complete(run, s))
  }

  ghost predicate NoChains(mem: Memory)
  {
    forall p :: p in AllDescriptors(mem) ==> Tag(mem, p) != TAG_CHAIN_PARTITION
  }

  lemma OkFacts(run: Run, s: Snapshot, ret: SlotResult, outcomes: seq<Outcome>)
    requires DataKept(run, s, ret, outcomes)
    ensures ret == Ok ==> OkMeans(run, s, outcomes)
  {
    hide RootTrusted, VbmetaImage.Sized, Trusted, HeaderOf, RollbackRecorded, TopResult, Sourced, Explains, AllPassed, AllSure, NoLateLookup,
         NoLookup, NoChains, Complete, AllRequested;
    var mem := s.images[0].mem;
    SourcedDevice(run, s);
    TopTrusted(run, s);
    if ret == Ok && !VerificationDisabled(mem) {
      if NoLookup(mem) {
        NoLookupNoneLate(run.allow, mem);
      }
      if NoLateLookup(run.allow, mem) {
        NoLateLookupPasses(run.allow, mem, TopResult(run, mem), outcomes);
        if run.allow ==> NoChains(mem) {
          PassedIsSure(run.allow, mem, TopResult(run, mem), outcomes, ret);
        }
      }
    }
  }

  lemma SourcedDevice(run: Run, s: Snapshot)
    requires Sourced(run, s)
    ensures run.dev.Valid()
  {
  }

  lemma NoLookupNoneLate(allow: bool, mem: Memory)
    requires NoLookup(mem)
    ensures NoLateLookup(allow, mem)
  {
    hide AllDescriptors, LooksUp, MayFail;
  }

  lemma PassedIsSure(allow: bool, mem: Memory, ret0: SlotResult, outcomes: seq<Outcome>, ret: SlotResult)
    requires AllPassed(outcomes) && Explains(allow, mem, ret0, outcomes, ret) && (allow ==> NoChains(mem))
    ensures AllSure(allow, outcomes)
  {
    hide AllDescriptors, OutcomeOf, Passed;
    forall i | 0 <= i < |outcomes| ensures Sure(allow, outcomes[i]) {
      if allow {
        ChainKind(mem, AllDescriptors(mem)[i], outcomes[i]);
      }
    }
  }

  lemma ChainKind(mem: Memory, p: nat, o: Outcome)
    requires OutcomeOf(mem, p, true, o)
    ensures o.Chain? ==> Tag(mem, p) == TAG_CHAIN_PARTITION
  {
  }

  lemma FreshBounded(store: Store, log: seq<Event>)
    ensures Fresh(store, log).Bounded()
  {
  }

  lemma NothingAsked(managed: bool, store: Store, log: seq<Event>)
    ensures CallLogged(managed, store, log, store, log)
  {
    assert log[|log|..] == [];
  }

  lemma LoggedCall(managed: bool, s: Snapshot, t: Snapshot)
    requires Logged(s, t)
    ensures CallLogged(managed, s.store, s.log, t.store, t.log)
  {
  }

  /** What loading from nothing establishes. */
  lemma LoadedFacts(run: Run, store: Store, log: seq<Event>, r: Loaded)
    requires run.dev.Valid() && LoadKept(run, Fresh(store, log), 0, 0, r)
    ensures r.s.Bounded() && KeepsDigests(store, r.s.store) && Logged(Fresh(store, log), r.s)
    ensures forall managed :: CallLogged(managed, store, log, r.s.store, r.s.log)
    ensures GoesOn(run.allow, r.ret) ==> r.s.images != [] && DataKept(run, r.s, r.ret, r.outcomes)
  {
    hide Trusted, Sourced, Ends, VbmetaImage.Sized, HeaderOf, Logged, CallLogged, Settled, TopResult;
    forall managed ensures CallLogged(managed, store, log, r.s.store, r.s.log) {
      LoggedCall(managed, Fresh(store, log), r.s);
    }
    NoImages(run, Fresh(store, log));
  }

  lemma NoImages(run: Run, s: Snapshot)
    requires run.dev.Valid() && s.images == [] && s.chainOf == []
    ensures Trusted(run, s) && (s.loaded == [] && s.hashOf == [] ==> Sourced(run, s))
  {
  }

  /** Resolving the mode undoes nothing of it, and adds one request at the end of the log. */
  lemma FinishFacts(run: Run, store: Store, log: seq<Event>, r: Loaded, corruption: bool, requested: ErrorMode)
    requires run.dev.Valid() && r.s.Bounded() && r.s.images != [] && KeepsDigests(store, r.s.store) && Logged(Fresh(store, log), r.s)
    ensures var f := Finishing(run, r.s, corruption, requested);
            && KeepsDigests(store, f.s.store) && CallLogged(requested == ManagedRestartAndEio, store, log, f.s.store, f.s.log)
            && (DataKept(run, r.s, r.ret, r.outcomes) ==> DataKept(run, f.s, r.ret, r.outcomes))
            && f.s.images == r.s.images
            && (f.ret == Ok && !VerificationDisabled(r.s.images[0].mem) ==> run.dev.optionsResult == Ok)
            && (ShouldContinue(f.ret) ==> f.ret == Ok || f.ret == run.dev.optionsResult)
            && (f.ret == Ok ==> ModeKept(run, store, log, f.s, corruption, requested, f.mode))
  {
    hide DataKept, VbmetaImage.Sized, HeaderOf, Logged, CallLogged, VbmetaDigestOf, ModeStore, ModeIo, ModeFromStore, KeepsDigests;
    LoggedCall(requested == ManagedRestartAndEio, Fresh(store, log), r.s);
    if !VerificationDisabled(r.s.images[0].mem) && requested == ManagedRestartAndEio {
      var e := ManageMode(run.vals.c, corruption, VbmetaDigestOf(run.dev, r.s.images));
      EventKeepsDigests(r.s.store, e);
      KeepsTrans(store, r.s.store, e.After(r.s.store));
      ModeLast(run, store, log, r.s, corruption);
      AskedKeeps(run, r.s, e, r.ret, r.outcomes);
    }
  }

  lemma KeepsTrans(s: Store, t: Store, u: Store)
    requires KeepsDigests(s, t) && KeepsDigests(t, u)
    ensures KeepsDigests(s, u)
  {
  }

  lemma ModeLast(run: Run, store: Store, log: seq<Event>, s: Snapshot, corruption: bool)
    requires run.dev.Valid() && Logged(Fresh(store, log), s)
    ensures var digest := VbmetaDigestOf(run.dev, s.images);
            var t := s.Asked(ManageMode(run.vals.c, corruption, digest));
            && CallLogged(true, store, log, t.store, t.log)
            && (ModeIo(s.store, run.vals.c, corruption, digest) == IoOk ==>
                  ModeFromStore(run, store, log, t, corruption, if MANAGED_VERITY_MODE in t.store then Eio else Restart))
  {
    hide VbmetaDigestOf, ModeStore;
    var e := ManageMode(run.vals.c, corruption, VbmetaDigestOf(run.dev, s.images));
    var events := s.log[|log|..];
    assert (s.log + [e])[|log|..] == events + [e] && (events + [e])[..|events|] == events;
    assert (s.log + [e])[|log|..|s.log|] == events;
  }

  /** A request to the store changes neither images nor partitions. */
  lemma AskedKeeps(run: Run, s: Snapshot, e: Event, ret: SlotResult, outcomes: seq<Outcome>)
    requires run.dev.Valid() && e.Valid()
    ensures DataKept(run, s, ret, outcomes) ==> DataKept(run, s.Asked(e), ret, outcomes)
  {
    hide RootTrusted, ChainTrusted, Explains, AllSure, AllRequested, VbmetaImage.Sized, HeaderOf, Verified, ImageFollowed, Event.After, Sourced,
         TopResult;
    var t := s.Asked(e);
    EventKeepsDigests(s.store, e);
    if Sourced(run, s) {
      SourcedStays(run, s, t);
    }
    if Complete(run, s) {
      VerifiedStays(run, s, t);
      SettledStays(run, s, t, |s.images|);
      ImageStays(run.requested, s, t, 0);
    }
  }

  lemma ImageStays(requested: seq<Name>, s: Snapshot, t: Snapshot, k: nat)
    requires Extends(s, t) && ImageFollowed(requested, s, k)
    ensures ImageFollowed(requested, t, k)
  {
    hide AllDescriptors, PrefixFollowed;
    ExtendsImage(s, t, k);
    PrefixStays(requested, s, t, k, |AllDescriptors(s.images[k].mem)|);
  }
}
