/** A failure of a chained image that the caller of avb_slot_verify does not see: a later hashtree
    descriptor without a digest assigns the result variable. */
module Masked {
  import opened Words
  import opened Vbmeta
  import opened Descriptors
  import opened Persist
  import opened Slot
  import opened SlotRun
  import opened SlotSafety
  import opened SlotVerify

  // ------------------------------------------------------- what can be masked

  /** The image that the chain descriptor at p leads to. */
  ghost function ChainedImage(run: Run, mem: Memory, p: nat): Reading
    requires ParseChain(mem, p).Some?
  {
    var chain := ParseChain(mem, p).value;
    ImageRead(run, chain.name, !IsVbmetaName(NameMemory(mem, p, chain)))
  }

  ghost predicate ChainAt(mem: Memory, p: nat)
  {
    Tag(mem, p) == TAG_CHAIN_PARTITION && Following(mem, p) % 8 == 0 && ParseChain(mem, p).Some?
  }

  /** The chained image is not signed. */
  ghost predicate UnsignedChain(run: Run, mem: Memory, p: nat)
  {
    ChainAt(mem, p) && ChainedImage(run, mem, p).ret == Ok && LayoutOf(ChainedImage(run, mem, p).bytes) == Unsigned
  }

  /** It fails, and nothing of it is kept. */
  lemma UnsignedChainFails(run: Run, s: Snapshot, mem: Memory, p: nat)
    requires run.dev.Valid() && !run.allow && UnsignedChain(run, mem, p)
    ensures Turn(run, s, true, mem, 0, p) == (Chain(ErrorVerification), s)
  {
    hide ParseChain, Tag, Following, LayoutOf, After, ImageRead, NameMemory, HashMatches, RsaPasses;
    var chain := ParseChain(mem, p).value;
    NameOfChain(mem, p);
    var location := ToI32(chain.rollbackLocation);
    assert location != 0;
    var nameMem := NameMemory(mem, p, chain);
    var sub := ImageRead(run, nameMem[..|chain.name|], !IsVbmetaName(nameMem));
    var image := Memory(sub.bytes, run.dev.behind);
    assert ImageCheck(run.dev, false, image, Some(chain.key), location % B32) == Checked(ErrorVerification, false, OkNotSigned);
    assert Examine(run, s, location, nameMem, Some(chain.key), p, image) == Loaded(ErrorVerification, s, []);
    assert Load(run, s, location, nameMem, |chain.name|, Some(chain.key), p) == Loaded(ErrorVerification, s, []);
  }

  /** The loaded partition does not have the digest that its descriptor d demands. */
  ghost predicate Unmatched(dev: Device, d: HashDescriptor, l: LoadedPartition)
    requires dev.Valid()
  {
    l.name == d.name && d.digest != [] && dev.DigestNamed(d.algorithm, d.salt + l.data) != Some(d.digest)
  }

  /** The hash descriptor at p is for a requested partition that can be read, and whose digest is
      of the right length and wrong. */
  ghost predicate WrongPartition(run: Run, mem: Memory, p: nat)
    requires run.dev.Valid()
  {
    && Tag(mem, p) == TAG_HASH && Following(mem, p) % 8 == 0 && ParseHash(mem, p).Some?
    && var d := ParseHash(mem, p).value;
       && ValidUtf8(d.name) && d.name in run.requested && Nameable(d, run.suffix)
       && var full := FullPartition(run.dev, PartName(d, run.suffix), d.imageSize);
          && full.ret == Ok
          && var digest := run.dev.DigestNamed(d.algorithm, d.salt + full.data);
             d.digest != [] && digest.Some? && |digest.value| == |d.digest| && digest.value != d.digest
  }

  /** The partition is loaded all the same. */
  lemma WrongPartitionLoads(run: Run, s: Snapshot, mem: Memory, k: nat, p: nat)
    requires run.dev.Valid() && !run.allow && WrongPartition(run, mem, p) && |s.loaded| < MAX_LOADED_PARTITIONS
    ensures ParseHash(mem, p).Some?
    ensures var (o, t) := Turn(run, s, false, mem, k, p);
            && o == Hash(ErrorVerification) && |t.loaded| == |s.loaded| + 1
            && Unmatched(run.dev, ParseHash(mem, p).value, t.loaded[|s.loaded|])
  {
    hide ParseHash, Tag, Following, ValidUtf8, Device.DigestNamed, FullPartition;
    var d := ParseHash(mem, p).value;
    var full := FullPartition(run.dev, PartName(d, run.suffix), d.imageSize);
    assert full.data[..d.imageSize] == full.data;
    assert HashStep(run, s, mem, k, p) == PartitionStep(run, s, d, k, p);
  }

  /** What is recorded of the image that the chain descriptor at p leads to. */
  ghost function WithChained(run: Run, s: Snapshot, mem: Memory, p: nat): Snapshot
    requires ParseChain(mem, p).Some? && |ChainedImage(run, mem, p).bytes| >= HEADER_SIZE
  {
    var image := Memory(ChainedImage(run, mem, p).bytes, run.dev.behind);
    WithImage(s, ImageOf(NameMemory(mem, p, ParseChain(mem, p).value), image, VerifyOk), p)
  }

  /** The chained image itself is in order, its first h descriptors pass, and descriptor h is for a
      partition with a wrong digest. */
  ghost predicate WrongChain(run: Run, s: Snapshot, mem: Memory, p: nat, h: nat)
    requires run.dev.Valid()
  {
    && ChainAt(mem, p) && ChainedImage(run, mem, p).ret == Ok && |s.images| < MAX_VBMETA_IMAGES
    && var chain, image := ParseChain(mem, p).value, Memory(ChainedImage(run, mem, p).bytes, run.dev.behind);
       && Kept(run.dev, image, Some(chain.key), ToI32(chain.rollbackLocation) % B32)
       && |image.bytes| >= HEADER_SIZE && h < |AllDescriptors(image)|
       && var t := WithChained(run, s, mem, p);
          && (forall n :: 0 <= n < h ==> Passed(OutcomeAt(run, t, false, image, |s.images|, n)))
          && WrongPartition(run, image, AllDescriptors(image)[h])
          && |StateAt(run, t, false, image, |s.images|, h).loaded| < MAX_LOADED_PARTITIONS
  }

  /** The descriptors of such an image end at the wrong partition. */
  lemma WrongChainTurns(run: Run, s: Snapshot, mem: Memory, p: nat, h: nat) returns (d: HashDescriptor)
    requires run.dev.Valid() && !run.allow && WrongChain(run, s, mem, p, h)
    ensures var image := Memory(ChainedImage(run, mem, p).bytes, run.dev.behind);
            var r := Turns(run, WithChained(run, s, mem, p), false, image, |s.images|, Ok, [], 0);
            r.stop && r.ret == ErrorVerification && r.s.loaded != [] && Unmatched(run.dev, d, r.s.loaded[|r.s.loaded| - 1])
  {
    hide AllDescriptors, Turns, Turn, ParseChain, ParseHash, WrongPartition, Unmatched, Kept, ChainedImage, Tag, Following, OutcomesTo,
         HeaderOf, WithChained, StateAt, Result;
    var image, t, k := Memory(ChainedImage(run, mem, p).bytes, run.dev.behind), WithChained(run, s, mem, p), |s.images|;
    WrongPartitionLoads(run, StateAt(run, t, false, image, k, h), image, k, AllDescriptors(image)[h]);
    d := ParseHash(image, AllDescriptors(image)[h]).value;
    forall i | 0 <= i < h ensures !Stops(false, OutcomeAt(run, t, false, image, k, i)) {
      assert Passed(OutcomeAt(run, t, false, image, k, i));
    }
    assert OutcomeAt(run, t, false, image, k, h) == Hash(ErrorVerification);
    LoopStopsAt(run, t, false, image, k, Ok, h);
    OneMore(run, t, false, image, k, Ok, h);
  }

  /** So the chain descriptor fails with ErrorVerification, and leaves the partition loaded. */
  lemma WrongChainFails(run: Run, s: Snapshot, mem: Memory, p: nat, h: nat) returns (d: HashDescriptor)
    requires run.dev.Valid() && !run.allow && WrongChain(run, s, mem, p, h)
    ensures var (o, t) := Turn(run, s, true, mem, 0, p);
            o == Chain(ErrorVerification) && t.loaded != [] && Unmatched(run.dev, d, t.loaded[|t.loaded| - 1])
  {
    hide AllDescriptors, Turns, Turn, ParseHash, WrongPartition, Unmatched, ParseChain, Tag, Following, ImageRead, NameMemory, HeaderOf, Kept,
         OutcomeAt, StateAt;
    d := WrongChainTurns(run, s, mem, p, h);
    WrongChainExamined(run, s, mem, p, h);
    hide WrongChain, WithChained, Examine;
    ChainTurn(run, s, mem, p);
  }

  /** Following a chain descriptor whose image can be read is examining that image. */
  lemma ChainTurn(run: Run, s: Snapshot, mem: Memory, p: nat)
    requires run.dev.Valid() && ChainAt(mem, p) && ChainedImage(run, mem, p).ret == Ok
    ensures var chain, image := ParseChain(mem, p).value, Memory(ChainedImage(run, mem, p).bytes, run.dev.behind);
            var r := Examine(run, s, ToI32(chain.rollbackLocation), NameMemory(mem, p, chain), Some(chain.key), p, image);
            Turn(run, s, true, mem, 0, p) == (Chain(r.ret), r.s)
  {
    hide ParseChain, Tag, Following, ImageRead, NameMemory, Examine;
    var chain := ParseChain(mem, p).value;
    var nameMem, location := NameMemory(mem, p, chain), ToI32(chain.rollbackLocation);
    NameOfChain(mem, p);
    var image := Memory(ChainedImage(run, mem, p).bytes, run.dev.behind);
    assert Load(run, s, location, nameMem, |chain.name|, Some(chain.key), p)
        == Examine(run, s, location, nameMem, Some(chain.key), p, image);
  }

  lemma WrongChainExamined(run: Run, s: Snapshot, mem: Memory, p: nat, h: nat)
    requires run.dev.Valid() && !run.allow && WrongChain(run, s, mem, p, h)
    ensures var chain, image := ParseChain(mem, p).value, Memory(ChainedImage(run, mem, p).bytes, run.dev.behind);
            var r := Turns(run, WithChained(run, s, mem, p), false, image, |s.images|, Ok, [], 0);
            r.stop ==>
              Examine(run, s, ToI32(chain.rollbackLocation), NameMemory(mem, p, chain), Some(chain.key), p, image) ==
              Loaded(r.ret, r.s, r.outcomes)
  {
    hide AllDescriptors, Turns, WrongPartition, ParseChain, ChainedImage, Tag, Following, NameMemory, HeaderOf, Kept, OutcomeAt, StateAt;
    var chain, image := ParseChain(mem, p).value, Memory(ChainedImage(run, mem, p).bytes, run.dev.behind);
    var location := ToI32(chain.rollbackLocation);
    CheckFacts(run.dev, false, image, Some(chain.key), location % B32);
    KeptChecks(run.dev, image, Some(chain.key), location % B32);
    hide ImageCheck;
    NoFlags(image);
  }

  lemma NoFlags(mem: Memory)
    requires |mem.bytes| >= HEADER_SIZE && HeaderOf(mem.bytes).flags == 0
    ensures !VerificationDisabled(mem)
  {
    hide HeaderOf;
  }

  /** In strict mode an image that is kept is kept with Ok. */
  lemma KeptChecks(dev: Device, mem: Memory, expectedKey: Option<seq<byte>>, location: nat)
    requires dev.Valid() && Kept(dev, mem, expectedKey, location)
    ensures ImageCheck(dev, false, mem, expectedKey, location) == Checked(Ok, true, VerifyOk)
    ensures expectedKey.Some? ==> |mem.bytes| >= HEADER_SIZE && HeaderOf(mem.bytes).flags == 0
  {
    hide LayoutOf, HashMatches, RsaPasses, HeaderOf, PublicKey, Metadata;
    CheckFacts(dev, false, mem, expectedKey, location);
    assert VerifyResultOf(dev.hashes, mem) == VerifyOk;
  }

  // ---------------------------------------------------------- what masks it

  /** A hashtree descriptor without a digest, whose digest is in the store. */
  ghost predicate StoredTree(run: Run, store: Store, mem: Memory, q: nat)
  {
    var tree := ParseHashtree(mem, q);
    && Tag(mem, q) == TAG_HASHTREE && Following(mem, q) % 8 == 0 && tree.Some? && tree.value.rootDigestLen == 0
    && LookupAllowed(tree.value, run.suffix)
    && ReadResult(store, run.vals.c, CString(tree.value.name), DigestLength(tree.value.algorithm), None) == Ok
  }

  lemma StoredTreePasses(run: Run, s: Snapshot, mem: Memory, q: nat)
    requires run.dev.Valid() && StoredTree(run, s.store, mem, q) && s.substitutions < MAX_SUBSTITUTIONS
    ensures Turn(run, s, true, mem, 0, q).0 == Tree(Ok)
  {
    hide ParseHashtree, Tag, Following, LookupAllowed, ReadResult, CString, DigestLength;
  }

  /** A digest that is in the store at first is there later. */
  lemma StoredTreeStays(run: Run, store: Store, store': Store, mem: Memory, q: nat)
    requires StoredTree(run, store, mem, q) && KeepsDigests(store, store')
    ensures StoredTree(run, store', mem, q)
  {
    hide ParseHashtree, Tag, Following, LookupAllowed, CString, DigestLength;
  }

  // --------------------------------------------------- which image is loaded

  lemma {:induction false} PlainUtf8(s: seq<byte>)
    requires forall i :: 0 <= i < |s| ==> s[i] < 0x80
    ensures ValidUtf8(s)
  {
    if s != [] {
      PlainUtf8(s[1..]);
    }
  }

  /** Without read faults: if there is a partition "vbmeta", its first 64 KiB are examined; if there
      is none, what the partition "boot" holds, footer included. */
  lemma TopFound(run: Run, store: Store, log: seq<Event>)
    requires run.dev.Valid() && |run.suffix| < 26
    requires NoFaults(run.dev, CString(Ascii("vbmeta") + run.suffix)) && NoFaults(run.dev, CString(Ascii("boot") + run.suffix))
    ensures var parts, vbmeta, boot := run.dev.partitions, CString(Ascii("vbmeta") + run.suffix), CString(Ascii("boot") + run.suffix);
            var s, behind := Fresh(store, log), run.dev.behind;
            && (vbmeta in parts ==>
                  var bytes := if |parts[vbmeta]| <= 65536 then parts[vbmeta] else parts[vbmeta][..65536];
                  Loading(run, store, log) == Examine(run, s, 0, Literal("vbmeta"), None, 0, Memory(bytes, behind)))
            && (vbmeta !in parts && boot in parts && VbmetaBytes(parts[boot], true).Some? ==>
                  Loading(run, store, log) ==
                  Examine(run, s, 0, Literal("boot"), None, 0, Memory(VbmetaBytes(parts[boot], true).value, behind)))
            && (vbmeta !in parts && (boot in parts ==> VbmetaBytes(parts[boot], true).None?) ==>
                  Loading(run, store, log) == Loaded(ErrorIo, s, []))
  {
    hide Examine, ImageRead, CString, ValidUtf8, Stored, BigEndian, Footer;
    LiteralNames();
    BootIsNot();
    PlainUtf8(Ascii("vbmeta"));
    PlainUtf8(Ascii("boot"));
    ReadsVbmeta(run, Ascii("vbmeta"), false);
    ReadsVbmeta(run, Ascii("boot"), true);
    StartBytes(run.dev.partitions, CString(Ascii("vbmeta") + run.suffix));
    hide VbmetaBytes, Literal, Ascii, NoFaults, ReadFrom, Rank, IsVbmetaName;
    MainLoad(run, store, log);
  }

  lemma StartBytes(parts: map<Name, seq<byte>>, part: Name)
    ensures part in parts ==> VbmetaBytes(parts[part], false) == Some(if |parts[part]| <= 65536 then parts[part] else parts[part][..65536])
  {
    assert part in parts && |parts[part]| <= 65536 ==> parts[part][..|parts[part]|] == parts[part];
  }

  /** The two readings that loading starts with. */
  lemma MainLoad(run: Run, store: Store, log: seq<Event>)
    requires run.dev.Valid()
    ensures var first, second := ImageRead(run, Ascii("vbmeta"), false), ImageRead(run, Ascii("boot"), true);
            var s := Fresh(store, log);
            Loading(run, store, log) ==
            if first.io != NoSuchPartition then
              (if first.ret != Ok then Loaded(first.ret, s, [])
               else Examine(run, s, 0, Literal("vbmeta"), None, 0, Memory(first.bytes, run.dev.behind)))
            else if second.ret != Ok then Loaded(second.ret, s, [])
            else Examine(run, s, 0, Literal("boot"), None, 0, Memory(second.bytes, run.dev.behind))
  {
    hide Examine, ImageRead, CString;
    LiteralNames();
    BootIsNot();
    assert |Literal("vbmeta")| == 7 && |Literal("boot")| == 5;
    hide Literal, Ascii, IsVbmetaName;
    var s := Fresh(store, log);
    var second := ImageRead(run, Ascii("boot"), true);
    assert Load(run, s, 0, Literal("boot"), 4, None, 0) ==
           if second.ret != Ok then Loaded(second.ret, s, [])
           else Examine(run, s, 0, Literal("boot"), None, 0, Memory(second.bytes, run.dev.behind));
  }

  /** This image was verified and recorded first. */
  ghost predicate FirstImage(s: Snapshot, name: Name, mem: Memory)
  {
    s.images != [] && s.images[0].name == name && s.images[0].mem == mem && s.images[0].result == VerifyOk
  }

  /** An image that is trusted is loaded, as the first one. */
  lemma KeptIsLoaded(run: Run, store: Store, log: seq<Event>, nameMem: seq<byte>, mem: Memory)
    requires run.dev.Valid() && Kept(run.dev, mem, None, 0) && |mem.bytes| <= VBMETA_MAX_SIZE
    requires CString(nameMem) == Ascii("vbmeta") || CString(nameMem) == Ascii("boot")
    ensures var r := Examine(run, Fresh(store, log), 0, nameMem, None, 0, mem);
            FirstImage(r.s, CString(nameMem), mem)
  {
    hide HeaderOf, ImageCheck, After, CString, VerifyResultOf, VbmetaImage.Sized, Ascii, LayoutOf, HashMatches, RsaPasses, Metadata, PublicKey;
    CheckCodes(run.dev, run.allow, mem, None, 0);
    CheckFacts(run.dev, run.allow, mem, None, 0);
    ImageFacts(run, nameMem, mem, None, 0);
    VerdictOk(run.dev, mem);
    var image := ImageOf(nameMem, mem, VerifyOk);
    FirstBounded(store, log, image);
    hide ImageOf, Kept;
    AfterFirst(run, store, log, image);
  }

  lemma VerdictOk(dev: Device, mem: Memory)
    requires dev.Valid() && Accepted(dev.hashes, mem)
    ensures VerifyResultOf(dev.hashes, mem) == VerifyOk
  {
    hide LayoutOf, HashMatches, RsaPasses;
  }

  lemma AfterFirst(run: Run, store: Store, log: seq<Event>, image: VbmetaImage)
    requires run.dev.Valid() && |image.mem.bytes| >= HEADER_SIZE && WithImage(Fresh(store, log), image, 0).Bounded()
    ensures var r := After(run, WithImage(Fresh(store, log), image, 0), 0, image.mem, 0, Ok);
            r.s.images != [] && r.s.images[0] == image
  {
    hide HeaderOf, After, VbmetaImage.Sized, Logged, Sourced, Trusted, Ends, VerificationDisabled;
    var s := WithImage(Fresh(store, log), image, 0);
    AfterKeeps(run, s, 0, image.mem, 0, Ok);
    ExtendsImage(s, After(run, s, 0, image.mem, 0, Ok).s, 0);
  }

  /** So a device without "vbmeta", on which "boot" holds a trusted image, loads that image. */
  lemma BootLoaded(run: Run, store: Store, log: seq<Event>, mem: Memory)
    requires run.dev.Valid() && |run.suffix| < 26
    requires NoFaults(run.dev, CString(Ascii("vbmeta") + run.suffix)) && NoFaults(run.dev, CString(Ascii("boot") + run.suffix))
    requires CString(Ascii("vbmeta") + run.suffix) !in run.dev.partitions && CString(Ascii("boot") + run.suffix) in run.dev.partitions
    requires VbmetaBytes(run.dev.partitions[CString(Ascii("boot") + run.suffix)], true) == Some(mem.bytes) && mem.behind == run.dev.behind
    requires Kept(run.dev, mem, None, 0)
    ensures FirstImage(Loading(run, store, log).s, Ascii("boot"), mem)
  {
    hide Examine, CString, Ascii, Literal, VbmetaBytes, NoFaults, Kept, FirstImage, Loading;
    LiteralNames();
    TopFound(run, store, log);
    KeptIsLoaded(run, store, log, Literal("boot"), mem);
  }

  // ------------------------------------------------------------- the devices

  /** The top-level image of the device, and the slot data with it alone. */
  ghost function TopImage(run: Run): Memory
  {
    Memory(ImageRead(run, Ascii("vbmeta"), false).bytes, run.dev.behind)
  }

  /** What its checks come to. */
  ghost function TopChecked(run: Run): Checked
    requires run.dev.Valid()
  {
    ImageCheck(run.dev, run.allow, TopImage(run), None, 0)
  }

  ghost function TopState(run: Run, store: Store, log: seq<Event>): Snapshot
    requires run.dev.Valid() && |TopImage(run).bytes| >= HEADER_SIZE
  {
    WithImage(Fresh(store, log), ImageOf(Literal("vbmeta"), TopImage(run), TopChecked(run).result), 0)
  }

  /** The partition "vbmeta" holds an image that is kept: in strict mode one that is trusted, and
      otherwise possibly one that failed. */
  ghost predicate TopKept(run: Run)
    requires run.dev.Valid()
  {
    && ImageRead(run, Ascii("vbmeta"), false).ret == Ok && TopChecked(run).keep
    && |TopImage(run).bytes| >= HEADER_SIZE && !VerificationDisabled(TopImage(run))
  }

  ghost function TopOutcome(run: Run, store: Store, log: seq<Event>, n: nat): Outcome
    requires run.dev.Valid() && TopKept(run) && n < |AllDescriptors(TopImage(run))|
  {
    OutcomeAt(run, TopState(run, store, log), true, TopImage(run), 0, n)
  }

  /** The slot data before descriptor n of the top-level image. */
  ghost function TopStateAt(run: Run, store: Store, log: seq<Event>, n: nat): Snapshot
    requires run.dev.Valid() && TopKept(run) && n <= |AllDescriptors(TopImage(run))|
  {
    StateAt(run, TopState(run, store, log), true, TopImage(run), 0, n)
  }

  /** Loading such a device is the loop over its top-level descriptors, and its rollback index. */
  lemma TopLoading(run: Run, store: Store, log: seq<Event>)
    requires run.dev.Valid() && TopKept(run)
    ensures Loading(run, store, log)
         == RollbackStep(0, HeaderOf(TopImage(run).bytes).rollbackIndex,
                         Turns(run, TopState(run, store, log), true, TopImage(run), 0, TopChecked(run).ret, [], 0))
  {
    hide AllDescriptors, Turns, ImageRead, ImageCheck, HeaderOf, CString, RollbackStep;
    LiteralNames();
    hide After, Examine, VerificationDisabled;
    var name := Literal("vbmeta");
    assert IsVbmetaName(name);
    assert Loading(run, store, log) == Examine(run, Fresh(store, log), 0, name, None, 0, TopImage(run));
    TopExamined(run, store, log);
    TopAfter(run, store, log);
  }

  lemma TopExamined(run: Run, store: Store, log: seq<Event>)
    requires run.dev.Valid() && TopKept(run)
    ensures Examine(run, Fresh(store, log), 0, Literal("vbmeta"), None, 0, TopImage(run))
         == After(run, TopState(run, store, log), 0, TopImage(run), 0, TopChecked(run).ret)
  {
    hide AllDescriptors, ImageRead, HeaderOf, CString, After, ImageCheck, VerificationDisabled, Literal;
  }

  lemma TopAfter(run: Run, store: Store, log: seq<Event>)
    requires run.dev.Valid() && TopKept(run)
    ensures After(run, TopState(run, store, log), 0, TopImage(run), 0, TopChecked(run).ret)
         == RollbackStep(0, HeaderOf(TopImage(run).bytes).rollbackIndex,
                         Turns(run, TopState(run, store, log), true, TopImage(run), 0, TopChecked(run).ret, [], 0))
  {
    hide AllDescriptors, Turns, ImageRead, ImageCheck, HeaderOf, RollbackStep, VerificationDisabled, TopState, RequestedFrom;
  }

  /** Loading comes to Ok if and only if no descriptor of the top-level image ends the loop, and a
      lookup follows every one that failed, and is there at all unless the image itself is signed,
      trusted and not rolled back. */
  lemma LoadingOkIff(run: Run, store: Store, log: seq<Event>)
    requires run.dev.Valid() && TopKept(run)
    ensures Loading(run, store, log).ret == Ok <==>
              LoopPasses(run, TopState(run, store, log), true, TopImage(run), 0, Kept(run.dev, TopImage(run), None, 0))
  {
    TopOk(run);
    hide AllDescriptors, Turns, HeaderOf, TopState, Loading, Kept, TopKept, TopImage, TopChecked, LoopPasses;
    TopLoading(run, store, log);
    LoopOkIff(run, TopState(run, store, log), true, TopImage(run), 0, TopChecked(run).ret);
    TopTable(run, store, log);
  }

  lemma TopOk(run: Run)
    requires run.dev.Valid() && TopKept(run)
    ensures |TopImage(run).bytes| >= HEADER_SIZE && (TopChecked(run).ret == Ok <==> Kept(run.dev, TopImage(run), None, 0))
  {
    hide HeaderOf, Kept, ImageCheck, ImageRead, VerificationDisabled;
    CheckCodes(run.dev, run.allow, TopImage(run), None, 0);
  }

  /** The loop keeps the rollback table in shape. */
  lemma TopTable(run: Run, store: Store, log: seq<Event>)
    requires run.dev.Valid() && TopKept(run)
    ensures |Turns(run, TopState(run, store, log), true, TopImage(run), 0, TopChecked(run).ret, [], 0).s.rollbackIndexes| == ROLLBACK_LOCATIONS
  {
    hide AllDescriptors, Turns, LoopKept, ProcessKept, HeaderOf, ImageCheck;
    TopBounded(run, store, log);
    var ret0 := TopChecked(run).ret;
    LoopStarts(run, TopState(run, store, log), true, 0, ret0);
    TurnsKeep(run, TopState(run, store, log), true, TopImage(run), 0, ret0, ret0, []);
    ProcessBounded(run, TopState(run, store, log), true, TopImage(run), 0, ret0,
                   Turns(run, TopState(run, store, log), true, TopImage(run), 0, ret0, [], 0));
  }

  lemma TopBounded(run: Run, store: Store, log: seq<Event>)
    requires run.dev.Valid() && TopKept(run)
    ensures var s := TopState(run, store, log); s.Bounded() && |s.images| == 1 && s.images[0].mem == TopImage(run)
  {
    TopRead(run);
    hide HeaderOf, ImageRead, CString, ImageCheck, VerificationDisabled, TopImage, Literal, Ascii, ImageOf, VbmetaImage.Sized;
    LiteralNames();
    ImageFacts(run, Literal("vbmeta"), TopImage(run), None, 0);
    FirstBounded(store, log, ImageOf(Literal("vbmeta"), TopImage(run), TopChecked(run).result));
  }

  lemma FirstBounded(store: Store, log: seq<Event>, image: VbmetaImage)
    requires image.Sized() && (image.name == Ascii("vbmeta") || image.name == Ascii("boot"))
    ensures WithImage(Fresh(store, log), image, 0).Bounded()
  {
    hide VbmetaImage.Sized, Ascii;
  }

  lemma TopRead(run: Run)
    requires run.dev.Valid() && TopKept(run)
    ensures |TopImage(run).bytes| <= VBMETA_MAX_SIZE
  {
    hide HeaderOf, ImageCheck, VerificationDisabled, Stored, Located;
  }

  /** A device on which the chained image of descriptor i fails in a way that could be ignored, the
      digest of descriptor j, behind it, is found, and all other descriptors pass. */
  ghost predicate MaskingDevice(run: Run, store: Store, log: seq<Event>, i: nat, j: nat)
    requires run.dev.Valid()
  {
    && !run.allow && TopKept(run) && run.dev.optionsResult == Ok && i < j < |AllDescriptors(TopImage(run))|
    && TopOutcome(run, store, log, i).Chain? && TopOutcome(run, store, log, i).r != Ok && Continues(TopOutcome(run, store, log, i))
    && TopOutcome(run, store, log, j) == Tree(Ok)
    && forall n :: 0 <= n < |AllDescriptors(TopImage(run))| && n != i && n != j ==> Passed(TopOutcome(run, store, log, n))
  }

  /** An unsigned chained image is such a failure. */
  lemma UnsignedTop(run: Run, store: Store, log: seq<Event>, i: nat)
    requires run.dev.Valid() && !run.allow && TopKept(run) && i < |AllDescriptors(TopImage(run))|
    requires UnsignedChain(run, TopImage(run), AllDescriptors(TopImage(run))[i])
    ensures TopOutcome(run, store, log, i) == Chain(ErrorVerification)
  {
    hide AllDescriptors, StateAt, Turn, UnsignedChain, HeaderOf, ImageCheck, ImageRead, VerificationDisabled, TopState;
    UnsignedChainFails(run, TopStateAt(run, store, log, i), TopImage(run), AllDescriptors(TopImage(run))[i]);
  }

  /** A digest that is stored before the call is found, until the substitutions are used up. */
  lemma StoredTop(run: Run, store: Store, log: seq<Event>, j: nat)
    requires run.dev.Valid() && TopKept(run) && j < |AllDescriptors(TopImage(run))|
    requires StoredTree(run, store, TopImage(run), AllDescriptors(TopImage(run))[j])
    requires TopStateAt(run, store, log, j).substitutions < MAX_SUBSTITUTIONS
    ensures TopOutcome(run, store, log, j) == Tree(Ok)
  {
    hide AllDescriptors, StateAt, Turn, StoredTree, HeaderOf, ImageRead, ImageCheck;
    TopGrows(run, store, log, 0, j);
    NothingYet(run, TopState(run, store, log), true, TopImage(run), 0, Ok);
    StoredTreeStays(run, store, TopStateAt(run, store, log, j).store, TopImage(run), AllDescriptors(TopImage(run))[j]);
    StoredTreePasses(run, TopStateAt(run, store, log, j), TopImage(run), AllDescriptors(TopImage(run))[j]);
  }

  /** For example, when there are only these two descriptors. */
  lemma UnsignedThenStored(run: Run, store: Store, log: seq<Event>, p: nat, q: nat)
    requires run.dev.Valid() && !run.allow && TopKept(run) && run.dev.optionsResult == Ok && AllDescriptors(TopImage(run)) == [p, q]
    requires UnsignedChain(run, TopImage(run), p) && StoredTree(run, store, TopImage(run), q)
    ensures MaskingDevice(run, store, log, 0, 1)
  {
    hide AllDescriptors, Turn, UnsignedChain, StoredTree, HeaderOf, ImageCheck, ImageRead, VerificationDisabled;
    UnsignedTop(run, store, log, 0);
    UnsignedChainFails(run, TopState(run, store, log), TopImage(run), p);
    NothingYet(run, TopState(run, store, log), true, TopImage(run), 0, Ok);
    OneMore(run, TopState(run, store, log), true, TopImage(run), 0, Ok, 0);
    StoredTop(run, store, log, 1);
  }

  /** From one descriptor of the top-level image to a later one, the slot data grows. */
  lemma {:induction false} TopGrows(run: Run, store: Store, log: seq<Event>, m: nat, n: nat)
    requires run.dev.Valid() && TopKept(run) && m <= n <= |AllDescriptors(TopImage(run))|
    ensures var s, t := TopStateAt(run, store, log, m), TopStateAt(run, store, log, n);
            && t.Bounded() && |t.images| > 0 && t.images[0].mem == TopImage(run) && Extends(s, t)
    decreases n
  {
    hide AllDescriptors, Turn, HeaderOf, ImageRead, ImageCheck, Extends, VbmetaImage.Sized, VerificationDisabled;
    var s, mem := TopState(run, store, log), TopImage(run);
    if n == 0 {
      TopBounded(run, store, log);
      ExtendsRefl(s);
    } else {
      TopGrows(run, store, log, if m < n then m else n - 1, n - 1);
      OneMore(run, s, true, mem, 0, Ok, n - 1);
      TopTurn(run, TopStateAt(run, store, log, n - 1), mem, AllDescriptors(mem)[n - 1]);
      if m < n {
        ExtendsTrans(TopStateAt(run, store, log, m), TopStateAt(run, store, log, n - 1), TopStateAt(run, store, log, n));
      } else {
        ExtendsRefl(TopStateAt(run, store, log, n));
      }
    }
  }

  lemma TopTurn(run: Run, s: Snapshot, mem: Memory, p: nat)
    requires run.dev.Valid() && s.Bounded() && |s.images| > 0 && s.images[0].mem == mem && p in AllDescriptors(mem)
    ensures var t := Turn(run, s, true, mem, 0, p).1;
            t.Bounded() && |t.images| > 0 && t.images[0].mem == mem && Extends(s, t)
  {
    hide AllDescriptors, Turn, Extends, Logged, Trusted, SettledBut, Followed, VbmetaImage.Sized;
    TurnKeeps(run, s, true, mem, 0, p);
    ExtendsImage(s, Turn(run, s, true, mem, 0, p).1, 0);
  }

  /** The loop passes if only descriptor i fails, and the digest of descriptor j behind it is found. */
  lemma OneHidden(run: Run, s: Snapshot, mem: Memory, i: nat, j: nat)
    requires run.dev.Valid() && !run.allow && i < j < |AllDescriptors(mem)|
    requires Continues(OutcomeAt(run, s, true, mem, 0, i)) && OutcomeAt(run, s, true, mem, 0, j) == Tree(Ok)
    requires forall n :: 0 <= n < |AllDescriptors(mem)| && n != i && n != j ==> Passed(OutcomeAt(run, s, true, mem, 0, n))
    ensures LoopPasses(run, s, true, mem, 0, true)
  {
    hide AllDescriptors, OutcomeAt;
    var n := |AllDescriptors(mem)|;
    forall m | 0 <= m < n
      ensures !Stops(run.allow, OutcomeAt(run, s, true, mem, 0, m)) && (!Passed(OutcomeAt(run, s, true, mem, 0, m)) ==> m == i)
    {
      if m != i && m != j {
        assert Passed(OutcomeAt(run, s, true, mem, 0, m));
      }
    }
  }

  /** ... and if there is only a lookup that succeeds. */
  lemma OnlyLookup(run: Run, s: Snapshot, mem: Memory)
    requires run.dev.Valid() && |AllDescriptors(mem)| == 1 && OutcomeAt(run, s, true, mem, 0, 0) == Tree(Ok)
    ensures LoopPasses(run, s, true, mem, 0, false)
  {
    hide AllDescriptors, OutcomeAt;
  }

  lemma PassesGoesOn(run: Run, s: Snapshot, mem: Memory)
    requires run.dev.Valid() && LoopPasses(run, s, true, mem, 0, true)
    ensures forall m :: 0 <= m < |AllDescriptors(mem)| ==> !Stops(run.allow, OutcomeAt(run, s, true, mem, 0, m))
  {
    hide AllDescriptors, OutcomeAt, Stops, Passed;
  }

  /** Loading such a device comes to Ok, although a descriptor has failed. */
  lemma MaskingLoads(run: Run, store: Store, log: seq<Event>, i: nat, j: nat)
    requires run.dev.Valid() && MaskingDevice(run, store, log, i, j)
    ensures var r, n := Loading(run, store, log), |AllDescriptors(TopImage(run))|;
            && r.ret == Ok && |r.outcomes| == n && r.outcomes[i] == TopOutcome(run, store, log, i)
            && r.s == TopStateAt(run, store, log, n).(rollbackIndexes := r.s.rollbackIndexes)
  {
    TopStrict(run);
    hide AllDescriptors, OutcomeAt, StateAt, HeaderOf, TopState, Loading, TopKept, TopImage, LoopPasses, Passed, Continues, OutcomesTo;
    forall n | 0 <= n < |AllDescriptors(TopImage(run))| && n != i && n != j
      ensures Passed(OutcomeAt(run, TopState(run, store, log), true, TopImage(run), 0, n))
    {
      assert Passed(TopOutcome(run, store, log, n));
    }
    OneHidden(run, TopState(run, store, log), TopImage(run), i, j);
    TopPasses(run, store, log);
  }

  /** Loading when the loop over the descriptors passes. */
  lemma TopPasses(run: Run, store: Store, log: seq<Event>)
    requires run.dev.Valid() && TopKept(run) && !run.allow
    requires LoopPasses(run, TopState(run, store, log), true, TopImage(run), 0, true)
    ensures var r, n := Loading(run, store, log), |AllDescriptors(TopImage(run))|;
            && r.ret == Ok && r.outcomes == OutcomesTo(run, TopState(run, store, log), true, TopImage(run), 0, n)
            && r.s == TopStateAt(run, store, log, n).(rollbackIndexes := r.s.rollbackIndexes)
  {
    TopStrict(run);
    hide AllDescriptors, Turns, OutcomeAt, StateAt, HeaderOf, TopState, Loading, Kept, TopKept, TopImage, TopChecked, LoopPasses, Result,
         Stops, OutcomesTo;
    LoadingOkIff(run, store, log);
    TopLoading(run, store, log);
    TopTable(run, store, log);
    PassesGoesOn(run, TopState(run, store, log), TopImage(run));
    LoopEndsAll(run, TopState(run, store, log), true, TopImage(run), 0, Ok);
  }

  /** In strict mode an image that is kept is in order. */
  lemma TopStrict(run: Run)
    requires run.dev.Valid() && TopKept(run) && !run.allow
    ensures Kept(run.dev, TopImage(run), None, 0) && TopChecked(run).ret == Ok
  {
    hide HeaderOf, Kept, ImageCheck, ImageRead, VerificationDisabled;
    CheckFacts(run.dev, run.allow, TopImage(run), None, 0);
  }

  /** With errors allowed, even that the top-level image is not signed can be hidden. */
  lemma UnsignedTopHidden(run: Run, store: Store, log: seq<Event>, q: nat)
    requires run.dev.Valid() && run.allow && TopKept(run) && LayoutOf(TopImage(run).bytes) == Unsigned
    requires AllDescriptors(TopImage(run)) == [q] && StoredTree(run, store, TopImage(run), q)
    ensures !Kept(run.dev, TopImage(run), None, 0) && Loading(run, store, log).ret == Ok
  {
    TopOk(run);
    NotKept(run.dev, TopImage(run));
    hide AllDescriptors, StoredTree, HeaderOf, OutcomeAt, LayoutOf, Kept, Loading, TopKept, TopChecked, TopImage, TopState, StateAt;
    FirstState(run, store, log);
    StoredTop(run, store, log, 0);
    OnlyLookup(run, TopState(run, store, log), TopImage(run));
    LoadingOkIff(run, store, log);
  }

  lemma NotKept(dev: Device, mem: Memory)
    requires dev.Valid() && LayoutOf(mem.bytes) == Unsigned
    ensures !Kept(dev, mem, None, 0)
  {
  }

  lemma FirstState(run: Run, store: Store, log: seq<Event>)
    requires run.dev.Valid() && TopKept(run)
    ensures TopStateAt(run, store, log, 0).substitutions == 0
  {
    hide AllDescriptors, HeaderOf, ImageCheck, ImageRead, VerificationDisabled;
    NothingYet(run, TopState(run, store, log), true, TopImage(run), 0, Ok);
  }

  /** A digest that is not found ends the loop with a verification error: the descriptors behind it
      are not handled, and the rollback index is not recorded. With errors allowed the call goes on
      with that. */
  lemma MissingDigestCutsShort(run: Run, store: Store, log: seq<Event>, n: nat)
    requires run.dev.Valid() && TopKept(run) && n < |AllDescriptors(TopImage(run))|
    requires forall i :: 0 <= i < n ==> !Stops(run.allow, TopOutcome(run, store, log, i))
    requires TopOutcome(run, store, log, n) == Tree(ErrorVerification)
    ensures var r := Loading(run, store, log);
            && r.ret == ErrorVerification && |r.outcomes| == n + 1 && r.s == TopStateAt(run, store, log, n + 1)
            && GoesOn(run.allow, r.ret) == run.allow
  {
    TopOk(run);
    hide AllDescriptors, Turns, OutcomeAt, StateAt, HeaderOf, TopState, Loading, Kept, TopKept, TopImage, TopChecked, Result,
         Stops;
    forall i | 0 <= i < n ensures !Stops(run.allow, OutcomeAt(run, TopState(run, store, log), true, TopImage(run), 0, i)) {
      assert !Stops(run.allow, TopOutcome(run, store, log, i));
    }
    TopLoading(run, store, log);
    LoopCutAt(run, TopState(run, store, log), TopImage(run), TopChecked(run).ret, n);
  }

  lemma LoopCutAt(run: Run, s: Snapshot, mem: Memory, ret0: SlotResult, n: nat)
    requires run.dev.Valid() && n < |AllDescriptors(mem)| && OutcomeAt(run, s, true, mem, 0, n) == Tree(ErrorVerification)
    requires forall i :: 0 <= i < n ==> !Stops(run.allow, OutcomeAt(run, s, true, mem, 0, i))
    ensures var r := Turns(run, s, true, mem, 0, ret0, [], 0);
            r.stop && r.ret == ErrorVerification && |r.outcomes| == n + 1 && r.s == StateAt(run, s, true, mem, 0, n + 1)
  {
    hide AllDescriptors, Turns, OutcomeAt, StateAt, Result;
    LoopStopsAt(run, s, true, mem, 0, ret0, n);
    OneMore(run, s, true, mem, 0, ret0, n);
  }

  /** The mode asked for can be resolved. */
  ghost predicate ModeWorks(run: Run, s: Snapshot, corruption: bool, requested: ErrorMode)
    requires run.dev.Valid()
  {
    && requested != Logging
    && (requested == ManagedRestartAndEio ==>
          run.vals.c.implemented && ModeIo(s.store, run.vals.c, corruption, VbmetaDigestOf(run.dev, s.images)) == IoOk)
  }

  lemma MaskingResult(run: Run, store: Store, log: seq<Event>, i: nat, j: nat, corruption: bool, requested: ErrorMode)
    requires run.dev.Valid() && MaskingDevice(run, store, log, i, j)
    requires ModeWorks(run, TopStateAt(run, store, log, |AllDescriptors(TopImage(run))|), corruption, requested)
    ensures var r := Loading(run, store, log);
            && r.ret == Ok && r.s.images != [] && !BadArguments(run, requested) && !run.allow
            && ResultOf(run, store, log, corruption, requested) == Ok
            && Finishing(run, r.s, corruption, requested).s.loaded == r.s.loaded
  {
    hide AllDescriptors, StateAt, OutcomeAt, HeaderOf, TopState, Load, VbmetaDigestOf, ModeIo, ImageCheck, ImageRead, VerificationDisabled, Extends;
    MaskingLoads(run, store, log, i, j);
    TopGrows(run, store, log, 0, |AllDescriptors(TopImage(run))|);
  }

  /** A failed chained image goes unreported: on every such device the strict call returns Ok. */
  method MaskedBoot(run: Run, corruption: bool, requested: ErrorMode, ghost i: nat, ghost j: nat)
    returns (ret: SlotResult, data: SlotData?, ghost outcomes: seq<Outcome>)
    requires run.dev.Valid() && MaskingDevice(run, run.vals.store, run.vals.log, i, j)
    requires ModeWorks(run, TopStateAt(run, run.vals.store, run.vals.log, |AllDescriptors(TopImage(run))|), corruption, requested)
    modifies run.vals
    ensures ret == Ok && data != null
    ensures i < |outcomes| && outcomes[i].Chain? && outcomes[i].r != Ok && !AllPassed(outcomes)
    ensures data.loaded == old(TopStateAt(run, run.vals.store, run.vals.log, |AllDescriptors(TopImage(run))|)).loaded
  {
    hide Load, Loading, Finishing, ResultOf, DataKept, CallLogged, ModeKept, KeepsDigests, TopStateAt, TopOutcome, AllDescriptors, TopKept;
    MaskingLoads(run, run.vals.store, run.vals.log, i, j);
    MaskingResult(run, run.vals.store, run.vals.log, i, j, corruption, requested);
    ret, data, outcomes := AvbSlotVerify(run, corruption, requested);
    assert !Passed(outcomes[i]);
  }

  /** The wrong partition of a masked image is still there at the end. */
  lemma WrongStays(run: Run, store: Store, log: seq<Event>, i: nat, h: nat)
    requires run.dev.Valid() && !run.allow && TopKept(run) && i < |AllDescriptors(TopImage(run))|
    requires WrongChain(run, TopStateAt(run, store, log, i), TopImage(run), AllDescriptors(TopImage(run))[i], h)
    ensures TopOutcome(run, store, log, i) == Chain(ErrorVerification)
    ensures exists l, d :: l in TopStateAt(run, store, log, |AllDescriptors(TopImage(run))|).loaded && Unmatched(run.dev, d, l)
  {
    hide AllDescriptors, HeaderOf, ImageRead, Kept, ImageCheck, Unmatched, VerificationDisabled, StateAt, OutcomeAt, TopState, Extends, WrongChain;
    var n, mem := |AllDescriptors(TopImage(run))|, TopImage(run);
    var d := WrongTop(run, store, log, i, h);
    TopGrows(run, store, log, i + 1, n);
    var s, t := TopStateAt(run, store, log, i + 1), TopStateAt(run, store, log, n);
    StillLoaded(s, t);
    assert s.loaded[|s.loaded| - 1] in t.loaded && Unmatched(run.dev, d, s.loaded[|s.loaded| - 1]);
  }

  lemma WrongTop(run: Run, store: Store, log: seq<Event>, i: nat, h: nat) returns (d: HashDescriptor)
    requires run.dev.Valid() && !run.allow && TopKept(run) && i < |AllDescriptors(TopImage(run))|
    requires WrongChain(run, TopStateAt(run, store, log, i), TopImage(run), AllDescriptors(TopImage(run))[i], h)
    ensures TopOutcome(run, store, log, i) == Chain(ErrorVerification)
    ensures var s := TopStateAt(run, store, log, i + 1); s.loaded != [] && Unmatched(run.dev, d, s.loaded[|s.loaded| - 1])
  {
    hide AllDescriptors, HeaderOf, ImageRead, Kept, ImageCheck, Unmatched, VerificationDisabled, StateAt, OutcomeAt, TopState, WrongChain;
    d := WrongTurn(run, TopState(run, store, log), TopImage(run), i, h);
  }

  lemma WrongTurn(run: Run, s: Snapshot, mem: Memory, i: nat, h: nat) returns (d: HashDescriptor)
    requires run.dev.Valid() && !run.allow && i < |AllDescriptors(mem)|
    requires WrongChain(run, StateAt(run, s, true, mem, 0, i), mem, AllDescriptors(mem)[i], h)
    ensures OutcomeAt(run, s, true, mem, 0, i) == Chain(ErrorVerification)
    ensures var t := StateAt(run, s, true, mem, 0, i + 1); t.loaded != [] && Unmatched(run.dev, d, t.loaded[|t.loaded| - 1])
  {
    hide AllDescriptors, Turn, Unmatched, StateAt, OutcomeAt, WrongChain;
    d := WrongChainFails(run, StateAt(run, s, true, mem, 0, i), mem, AllDescriptors(mem)[i], h);
    OneMore(run, s, true, mem, 0, Ok, i);
  }

  lemma StillLoaded(s: Snapshot, t: Snapshot)
    requires Extends(s, t) && s.loaded != []
    ensures s.loaded[|s.loaded| - 1] in t.loaded
  {
    assert t.loaded[|s.loaded| - 1] == s.loaded[|s.loaded| - 1];
  }

  /** So a strict call can return Ok together with a partition whose digest is wrong: when the
      masked failure is that of a requested partition of a chained image. */
  method WrongPartitionBoot(run: Run, corruption: bool, requested: ErrorMode, ghost i: nat, ghost j: nat, ghost h: nat)
    returns (ret: SlotResult, data: SlotData?)
    requires run.dev.Valid() && MaskingDevice(run, run.vals.store, run.vals.log, i, j)
    requires ModeWorks(run, TopStateAt(run, run.vals.store, run.vals.log, |AllDescriptors(TopImage(run))|), corruption, requested)
    requires WrongChain(run, TopStateAt(run, run.vals.store, run.vals.log, i), TopImage(run), AllDescriptors(TopImage(run))[i], h)
    modifies run.vals
    ensures ret == Ok && data != null
    ensures exists l, d :: l in data.loaded && Unmatched(run.dev, d, l)
  {
    hide TopStateAt, TopKept, AllDescriptors, WrongChain, Unmatched, TopOutcome;
    WrongStays(run, run.vals.store, run.vals.log, i, h);
    ghost var outcomes;
    ret, data, outcomes := MaskedBoot(run, corruption, requested, i, j);
  }
}
