/** What one call of avb_slot_verify does, as functions of the device and the persistent store:
    reading and checking vbmeta images, following their descriptors, and the result variable;
    and what every step keeps. */
module SlotRun {
  import opened Words
  import opened Vbmeta
  import opened Descriptors
  import opened Persist
  import opened Slot
  import Sha

  const FOOTER_MAGIC: seq<byte> := [0x41, 0x56, 0x42, 0x66]

  // ------------------------------------------------------- finding the image

  /** Magic, version and a vbmeta size that fits. */
  predicate UsableFooter(footer: seq<byte>)
  {
    && |footer| == FOOTER_SIZE && footer[..4] == FOOTER_MAGIC && Be32(footer[4..8]) <= 1
    && Be64(footer[28..36]) <= VBMETA_MAX_SIZE
  }

  datatype Place = Place(ret: SlotResult, offset: u64, size: nat)

  /** Where to look for the vbmeta struct: at the start, or where a footer says. */
  function Located(dev: Device, full: Name, lookForFooter: bool): (r: Place)
    ensures r.ret == Ok || !ShouldContinue(r.ret)
    ensures r.size <= VBMETA_MAX_SIZE
  {
    if !lookForFooter then Place(Ok, 0, VBMETA_MAX_SIZE)
    else
      var read := dev.Read(full, -FOOTER_SIZE, FOOTER_SIZE);
      if read.0 != IoOk then Place(FromIo(read.0), 0, VBMETA_MAX_SIZE)
      else if UsableFooter(read.1) then Place(Ok, Be64(read.1[20..28]), Be64(read.1[28..36]))
      else Place(Ok, 0, VBMETA_MAX_SIZE)
  }

  /** io is the outcome of the read of the struct itself. */
  datatype Reading = Reading(ret: SlotResult, io: IoResult, bytes: seq<byte>)

  function ImageRead(run: Run, name: Name, lookForFooter: bool): (r: Reading)
    ensures r.ret == Ok ==> r.io == IoOk && |r.bytes| <= VBMETA_MAX_SIZE
    ensures r.ret == Ok || !ShouldContinue(r.ret)
    ensures r.io != IoOk ==> r.ret == FromIo(r.io)
  {
    if !ValidUtf8(name) || |name| + |run.suffix| > PART_NAME_MAX_SIZE - 1 then Reading(ErrorInvalidMetadata, IoOk, [])
    else
      var full := CString(name + run.suffix);
      var place := Located(run.dev, full, lookForFooter);
      if place.ret != Ok then Reading(place.ret, IoOk, [])
      else
        var read := run.dev.Read(full, ToI64(place.offset), place.size);
        Reading(if read.0 == IoOk then Ok else FromIo(read.0), read.0, read.1)
  }

  /** Nothing goes wrong while a partition is read. */
  ghost predicate NoFaults(dev: Device, part: Name)
  {
    forall o: int, n: nat :: dev.readFault(part, o, n) == IoOk
  }

  /** What is read is what the partition holds as its vbmeta struct; and without faults it is read,
      if the partition is there, its name fits, and it holds one. */
  lemma ReadsVbmeta(run: Run, name: Name, footers: bool)
    requires run.dev.Valid()
    ensures var r := ImageRead(run, name, footers);
            && (r.ret == Ok ==> ReadFrom(run, name, footers, r.bytes))
            && (!ValidUtf8(name) || |name| + |run.suffix| >= 32 ==> r == Reading(ErrorInvalidMetadata, IoOk, []))
    ensures ValidUtf8(name) && |name| + |run.suffix| < 32 && NoFaults(run.dev, CString(name + run.suffix)) ==>
              var r, part := ImageRead(run, name, footers), CString(name + run.suffix);
              if part !in run.dev.partitions then
                r.ret == ErrorIo && (!footers ==> r.io == NoSuchPartition)
              else
                match VbmetaBytes(run.dev.partitions[part], footers)
                case None => r.ret == ErrorIo && r.io != NoSuchPartition
                case Some(bytes) => r == Reading(Ok, IoOk, bytes)
  {
    hide ValidUtf8, CString, Stored, BigEndian, VbmetaBytes;
    var part := CString(name + run.suffix);
    if part in run.dev.partitions {
      PlaceHolds(run.dev, part, footers);
    }
  }

  /** Where the vbmeta struct is looked for is where a partition holds it. */
  lemma PlaceHolds(dev: Device, part: Name, footers: bool)
    requires dev.Valid() && part in dev.partitions
    ensures var data, place := dev.partitions[part], Located(dev, part, footers);
            && (place.ret == Ok ==> VbmetaBytes(data, footers) == Stored(data, ToI64(place.offset), place.size))
            && (dev.readFault(part, -FOOTER_SIZE, FOOTER_SIZE) == IoOk ==> (place.ret != Ok <==> footers && |data| < 64))
            && (dev.readFault(part, -FOOTER_SIZE, FOOTER_SIZE) == IoOk && place.ret != Ok ==>
                  place.ret == ErrorIo && VbmetaBytes(data, footers) == None)
  {
    hide BigEndian, Stored;
    var data := dev.partitions[part];
    StartStored(data);
    if footers && |data| >= 64 {
      var footer := data[|data| - 64..];
      FooterStored(data);
      SameFooter(footer);
    }
  }

  lemma StartStored(data: seq<byte>)
    ensures Stored(data, 0, VBMETA_MAX_SIZE) == Some(data[..if |data| <= 65536 then |data| else 65536])
    ensures |data| < 64 ==> Stored(data, -FOOTER_SIZE, FOOTER_SIZE) == None
  {
    assert |data| <= 65536 ==> data[..|data|] == data[0..] == data;
    assert |data| > 65536 ==> data[0..65536] == data[..65536];
  }

  lemma FooterStored(data: seq<byte>)
    requires |data| >= 64
    ensures Stored(data, -FOOTER_SIZE, FOOTER_SIZE) == Some(data[|data| - 64..])
  {
    assert data[|data| - 64..|data|] == data[|data| - 64..];
  }

  lemma SameFooter(footer: seq<byte>)
    ensures Footer(footer) <==> UsableFooter(footer)
  {
    hide BigEndian;
  }

  // ------------------------------------------------------ checking the image

  /** The strict conditions under which an image is kept: signature, flags, key, rollback. */
  ghost predicate Kept(dev: Device, mem: Memory, expectedKey: Option<seq<byte>>, location: nat)
    requires dev.Valid()
  {
    && Accepted(dev.hashes, mem)
    && NotRolledBack(dev, mem, location)
    && match expectedKey
       case Some(key) => PublicKey(mem.bytes) == key && HeaderOf(mem.bytes).flags == 0
       case None => dev.trusts(PublicKey(mem.bytes), Metadata(mem)) == (IoOk, true)
  }

  datatype Checked = Checked(ret: SlotResult, keep: bool, result: VerifyResult)

  /** Is the key the expected one, or trusted by the device? */
  function KeyRejected(dev: Device, mem: Memory, key: seq<byte>, expectedKey: Option<seq<byte>>): (IoResult, bool)
    requires |mem.bytes| >= HEADER_SIZE
  {
    match expectedKey
    case Some(expected) => (IoOk, key != expected)
    case None => var r := dev.trusts(key, Metadata(mem)); (r.0, !r.1)
  }

  /** The key, unless the image has none that verified, and then the rollback index. */
  ghost function KeyAndRollback(dev: Device, allow: bool, mem: Memory, expectedKey: Option<seq<byte>>, location: nat,
                                ret: SlotResult, result: VerifyResult): Checked
    requires |mem.bytes| >= HEADER_SIZE && (result == VerifyOk ==> LayoutOf(mem.bytes) == Signed)
  {
    var key := if result == VerifyOk then KeyRejected(dev, mem, PublicKey(mem.bytes), expectedKey) else (IoOk, false);
    if key.0 != IoOk then Checked(FromIo(key.0), false, result)
    else if key.1 && !allow then Checked(ErrorPublicKeyRejected, false, result)
    else
      var stored := dev.rollbackIndex(location);
      if stored.0 != IoOk then Checked(FromIo(stored.0), false, result)
      else if HeaderOf(mem.bytes).rollbackIndex < stored.1 then Checked(ErrorRollbackIndex, allow, result)
      else Checked(if key.1 then ErrorPublicKeyRejected else ret, true, result)
  }

  /** The checks between reading an image and recording it. */
  ghost function ImageCheck(dev: Device, allow: bool, mem: Memory, expectedKey: Option<seq<byte>>, location: nat): Checked
    requires dev.Valid()
  {
    var result := VerifyResultOf(dev.hashes, mem);
    if result == InvalidVbmetaHeader then Checked(ErrorInvalidMetadata, false, result)
    else if result == UnsupportedVersion then Checked(ErrorUnsupportedVersion, false, result)
    else if result != VerifyOk && !allow then Checked(ErrorVerification, false, result)
    else if expectedKey.Some? && HeaderOf(mem.bytes).flags != 0 then Checked(ErrorInvalidMetadata, false, result)
    else KeyAndRollback(dev, allow, mem, expectedKey, location, if result == VerifyOk then Ok else ErrorVerification, result)
  }

  lemma CheckFacts(dev: Device, allow: bool, mem: Memory, expectedKey: Option<seq<byte>>, location: nat)
    requires dev.Valid()
    ensures var r := ImageCheck(dev, allow, mem, expectedKey, location);
            && (r.keep ==> |mem.bytes| >= HEADER_SIZE && BlocksFit(HeaderOf(mem.bytes), |mem.bytes|) && ShouldContinue(r.ret))
            && (r.keep && expectedKey.Some? ==> HeaderOf(mem.bytes).flags == 0)
            && (!allow ==> (r.keep <==> r.result == VerifyOk && Kept(dev, mem, expectedKey, location)))
            && (!allow && r.keep ==> r.ret == Ok)
            && (!r.keep ==> r.ret != Ok)
            && (allow && !r.keep ==> !ShouldContinue(r.ret))
  {
    hide HeaderOf, LayoutOf, HashMatches, RsaPasses, Metadata, PublicKey;
    if LayoutOf(mem.bytes) == Signed || LayoutOf(mem.bytes) == Unsigned {
      HasHeader(mem.bytes);
    }
  }

  /** The layout is right, whether the image is signed or not. */
  predicate WellLaid(mem: Memory)
  {
    LayoutOf(mem.bytes) == Signed || LayoutOf(mem.bytes) == Unsigned
  }

  /** A chained image must not have flags. */
  predicate FlagsRefused(mem: Memory, expectedKey: Option<seq<byte>>)
    requires WellLaid(mem)
  {
    expectedKey.Some? && HeaderOf(mem.bytes).flags != 0
  }

  /** The key check of the device cannot be asked. */
  ghost predicate KeyUnread(dev: Device, mem: Memory, expectedKey: Option<seq<byte>>)
    requires dev.Valid()
  {
    Accepted(dev.hashes, mem) && expectedKey.None? && dev.trusts(PublicKey(mem.bytes), Metadata(mem)).0 != IoOk
  }

  /** The image is signed with a key that is not the one expected, or not trusted. */
  ghost predicate KeyWrong(dev: Device, mem: Memory, expectedKey: Option<seq<byte>>)
    requires dev.Valid()
  {
    && Accepted(dev.hashes, mem)
    && match expectedKey
       case Some(key) => PublicKey(mem.bytes) != key
       case None => !dev.trusts(PublicKey(mem.bytes), Metadata(mem)).1
  }

  predicate RolledBack(dev: Device, mem: Memory, location: nat)
    requires WellLaid(mem)
  {
    HeaderOf(mem.bytes).rollbackIndex < dev.rollbackIndex(location).1
  }

  /** Which image is kept, and with which result. An image is kept with Ok exactly under the strict
      conditions, whether errors are allowed or not. If they are, every well-laid image is kept that
      is not refused for its flags, and of its failures the last decides; otherwise the first. */
  lemma CheckCodes(dev: Device, allow: bool, mem: Memory, expectedKey: Option<seq<byte>>, location: nat)
    requires dev.Valid()
    ensures var r := ImageCheck(dev, allow, mem, expectedKey, location);
            && r.result == VerifyResultOf(dev.hashes, mem)
            && (r.keep && r.ret == Ok <==> Kept(dev, mem, expectedKey, location))
            && (r.ret == ErrorUnsupportedVersion <==> LayoutOf(mem.bytes) == Unsupported)
            && (LayoutOf(mem.bytes) == Invalid ==> r.ret == ErrorInvalidMetadata)
            && (!WellLaid(mem) ==> !r.keep)
    ensures allow && WellLaid(mem) ==>
              var r := ImageCheck(dev, allow, mem, expectedKey, location);
              && (r.keep <==> !FlagsRefused(mem, expectedKey) && !KeyUnread(dev, mem, expectedKey) && dev.rollbackIndex(location).0 == IoOk)
              && (!r.keep ==> (r.ret == ErrorInvalidMetadata <==> FlagsRefused(mem, expectedKey)) && !ShouldContinue(r.ret))
              && (r.keep ==>
                    && (r.ret == ErrorRollbackIndex <==> RolledBack(dev, mem, location))
                    && (r.ret == ErrorPublicKeyRejected <==> !RolledBack(dev, mem, location) && KeyWrong(dev, mem, expectedKey))
                    && (r.ret == ErrorVerification <==> !RolledBack(dev, mem, location) && !Accepted(dev.hashes, mem))
                    && ShouldContinue(r.ret))
    ensures !allow && WellLaid(mem) ==>
              var r := ImageCheck(dev, allow, mem, expectedKey, location);
              var flags, unread := FlagsRefused(mem, expectedKey), KeyUnread(dev, mem, expectedKey);
              var wrong, unknown := KeyWrong(dev, mem, expectedKey), dev.rollbackIndex(location).0 != IoOk;
              && (r.keep <==> r.ret == Ok)
              && (r.ret == ErrorVerification <==> !Accepted(dev.hashes, mem))
              && (r.ret == ErrorInvalidMetadata <==> Accepted(dev.hashes, mem) && flags)
              && (r.ret == ErrorPublicKeyRejected <==> Accepted(dev.hashes, mem) && !flags && !unread && wrong)
              && (r.ret == ErrorRollbackIndex <==>
                    Accepted(dev.hashes, mem) && !flags && !unread && !wrong && !unknown && RolledBack(dev, mem, location))
  {
    hide HeaderOf, LayoutOf, HashMatches, RsaPasses, Metadata, PublicKey;
    if WellLaid(mem) {
      HasHeader(mem.bytes);
    }
  }

  lemma HasHeader(image: seq<byte>)
    requires LayoutOf(image) == Signed || LayoutOf(image) == Unsigned
    ensures |image| >= HEADER_SIZE && BlocksFit(HeaderOf(image), |image|)
  {
  }

  // --------------------------------------------- outcomes of the descriptors

  /** What handling one descriptor of an image did to the result variable. */
  datatype Outcome =
    | Skipped                  // nothing to do
    | Hash(r: SlotResult)      // assigned if not Ok
    | Chain(r: SlotResult)     // assigned if not Ok
    | Tree(r: SlotResult)      // digest looked up: always assigned
    | Malformed                // invalid metadata, ends the loop

  /** The result variable after one more outcome. */
  function Assigned(ret: SlotResult, o: Outcome): SlotResult
  {
    match o
    case Skipped => ret
    case Hash(r) => if r == Ok then ret else r
    case Chain(r) => if r == Ok then ret else r
    case Tree(r) => r
    case Malformed => ErrorInvalidMetadata
  }

  /** The result variable after the outcomes so far, if it was ret0 before the first. */
  function Result(ret0: SlotResult, outcomes: seq<Outcome>): SlotResult
  {
    if outcomes == [] then ret0 else Assigned(Result(ret0, outcomes[..|outcomes| - 1]), outcomes[|outcomes| - 1])
  }

  lemma ResultNext(ret0: SlotResult, outcomes: seq<Outcome>, o: Outcome)
    ensures Result(ret0, outcomes + [o]) == Assigned(Result(ret0, outcomes), o)
  {
    assert (outcomes + [o])[..|outcomes|] == outcomes;
  }

  /** Which outcomes end the loop. Only those of hash descriptors depend on the flag. */
  predicate Stops(allow: bool, o: Outcome)
  {
    match o
    case Skipped => false
    case Hash(r) => r != Ok && (!allow || !ShouldContinue(r))
    case Chain(r) => !ShouldContinue(r)
    case Tree(r) => r != Ok
    case Malformed => true
  }

  /** In strict mode, does the loop go on after an outcome? A chained image that fails in a
      way that could be ignored does not end it. */
  predicate Continues(o: Outcome)
  {
    !Stops(false, o)
  }

  /** Whether errors are allowed or not. */
  predicate Passed(o: Outcome)
  {
    o.Skipped? || (!o.Malformed? && o.r == Ok)
  }

  predicate AllPassed(outcomes: seq<Outcome>)
  {
    forall i :: 0 <= i < |outcomes| ==> Passed(outcomes[i])
  }

  /** A descriptor failed and a later digest lookup overwrote the failure. */
  predicate Masked(outcomes: seq<Outcome>, i: nat, j: nat)
    requires i < j < |outcomes|
  {
    !Passed(outcomes[i]) && outcomes[j].Tree?
  }

  /** Is one of the outcomes from index i on that of a lookup? */
  predicate LookupFrom(outcomes: seq<Outcome>, i: nat)
  {
    exists j :: i <= j < |outcomes| && outcomes[j].Tree?
  }

  lemma LookupNext(outcomes: seq<Outcome>, o: Outcome, i: nat)
    ensures LookupFrom(outcomes + [o], i) <==> LookupFrom(outcomes, i) || (i <= |outcomes| && o.Tree?)
  {
    var all := outcomes + [o];
    assert forall j :: 0 <= j < |outcomes| ==> all[j] == outcomes[j];
    if i <= |outcomes| && o.Tree? {
      assert all[|outcomes|].Tree?;
    } else if LookupFrom(outcomes, i) {
      var j :| i <= j < |outcomes| && outcomes[j].Tree?;
      assert all[j].Tree?;
    }
  }

  /** Every outcome lets the loop go on. */
  ghost predicate NoneStops(allow: bool, outcomes: seq<Outcome>)
  {
    forall i :: 0 <= i < |outcomes| ==> !Stops(allow, outcomes[i])
  }

  /** A lookup follows every failure. */
  ghost predicate FailuresHidden(outcomes: seq<Outcome>)
  {
    forall i :: 0 <= i < |outcomes| && !Passed(outcomes[i]) ==> LookupFrom(outcomes, i + 1)
  }

  /** The loop's result is Ok exactly when every outcome lets it go on, and a digest lookup follows
      each failure, one from before the loop included. */
  lemma {:induction false} ResultOkIff(allow: bool, ret0: SlotResult, outcomes: seq<Outcome>)
    requires forall i :: 0 <= i < |outcomes| - 1 ==> !Stops(allow, outcomes[i])
    ensures Result(ret0, outcomes) == Ok <==>
              NoneStops(allow, outcomes) && (ret0 == Ok || LookupFrom(outcomes, 0)) && FailuresHidden(outcomes)
  {
    hide Stops, Passed, LookupFrom;
    if outcomes != [] {
      var n := |outcomes| - 1;
      var before, o := outcomes[..n], outcomes[n];
      assert outcomes == before + [o];
      ResultOkIff(allow, ret0, before);
      ResultNext(ret0, before, o);
      StopOrPass(allow, o, Result(ret0, before));
      hide Result, Assigned;
      NoneLater(outcomes);
      forall i: nat ensures LookupFrom(outcomes, i) <==> LookupFrom(before, i) || (i <= n && o.Tree?) {
        LookupNext(before, o, i);
      }
      assert forall i :: 0 <= i < n ==> outcomes[i] == before[i];
    } else {
      NoneLater(outcomes);
    }
  }

  lemma NoneLater(outcomes: seq<Outcome>)
    ensures !LookupFrom(outcomes, |outcomes|)
  {
  }

  /** What one outcome does to the result. */
  lemma StopOrPass(allow: bool, o: Outcome, ret: SlotResult)
    ensures o.Tree? ==> (Passed(o) <==> !Stops(allow, o))
    ensures Passed(o) ==> !Stops(allow, o)
    ensures Assigned(ret, o) == Ok <==> Passed(o) && (o.Tree? || ret == Ok)
  {
  }

  /** So Ok means that everything passed, unless a lookup hides a failure. */
  lemma OkMeansPassed(allow: bool, ret0: SlotResult, outcomes: seq<Outcome>)
    requires forall i :: 0 <= i < |outcomes| - 1 ==> !Stops(allow, outcomes[i])
    requires Result(ret0, outcomes) == Ok
    ensures !AllPassed(outcomes) <==> exists i, j :: 0 <= i < j < |outcomes| && Masked(outcomes, i, j)
    ensures ret0 != Ok ==> LookupFrom(outcomes, 0)
  {
    hide Stops, Passed, Result;
    ResultOkIff(allow, ret0, outcomes);
    if !AllPassed(outcomes) {
      var i :| 0 <= i < |outcomes| && !Passed(outcomes[i]);
      assert LookupFrom(outcomes, i + 1);
      var j :| i + 1 <= j < |outcomes| && outcomes[j].Tree?;
      assert Masked(outcomes, i, j);
    }
  }

  // ------------------------------------------------- load_requested_partitions

  /** One requested partition, in full. */
  ghost function Requested(run: Run, name: Name): (r: Full)
    requires run.dev.Valid()
    ensures r.ret == Ok || !ShouldContinue(r.ret)
  {
    if |name| + |run.suffix| > PART_NAME_MAX_SIZE - 1 then Full(ErrorInvalidMetadata, [], false)
    else
      var sized := run.dev.PartitionSize(name + run.suffix);
      if sized.0 != IoOk then Full(FromIo(sized.0), [], false) else FullPartition(run.dev, name + run.suffix, sized.1)
  }

  /** Its result, where reading does not fail and nothing is preloaded. */
  lemma RequestedCodes(run: Run, name: Name)
    requires run.dev.Valid() && Plain(run.dev, name + run.suffix)
    ensures var full, part := Requested(run, name), name + run.suffix;
            if |part| >= 32 then full.ret == ErrorInvalidMetadata
            else if part !in run.dev.partitions then full.ret == ErrorIo
            else full == Full(Ok, run.dev.partitions[part], false)
  {
    var part := name + run.suffix;
    if part in run.dev.partitions {
      var whole := run.dev.partitions[part];
      assert Stored(whole, 0, |whole|) == Some(whole[0..|whole|]) && whole[0..|whole|] == whole;
    }
  }

  /** VERIFICATION_DISABLED: whole partitions are loaded, in the order requested, from the n-th on. */
  ghost function RequestedFrom(run: Run, s: Snapshot, n: nat): (SlotResult, Snapshot)
    requires run.dev.Valid()
    decreases |run.requested| - n
  {
    if n >= |run.requested| then (Ok, s)
    else
      var full := Requested(run, run.requested[n]);
      if full.ret != Ok then (full.ret, s)
      else if |s.loaded| == MAX_LOADED_PARTITIONS then (ErrorOom, s)
      else
        RequestedFrom(run, s.(loaded := s.loaded + [LoadedPartition(run.requested[n], full.data, full.preloaded)],
                              hashOf := s.hashOf + [(0, 0)]), n + 1)
  }

  lemma RequestedIsWhole(run: Run, name: Name)
    requires run.dev.Valid()
    ensures var full := Requested(run, name);
            full.ret == Ok ==> WholePartition(run, LoadedPartition(name, full.data, full.preloaded))
  {
  }

  /** The partitions added are those requested, from the n-th on, each in full. */
  ghost predicate RequestedAdded(run: Run, n: nat, was: seq<LoadedPartition>, now: seq<LoadedPartition>)
  {
    was <= now && forall i :: |was| <= i < |now| ==> IsRequested(run, n + i - |was|, now[i])
  }

  /** The j-th partition requested, in full. */
  ghost predicate IsRequested(run: Run, j: int, l: LoadedPartition)
  {
    0 <= j < |run.requested| && l.name == run.requested[j] && WholePartition(run, l)
  }

  lemma OneRequested(run: Run, n: nat, was: seq<LoadedPartition>, l: LoadedPartition, now: seq<LoadedPartition>)
    requires n < |run.requested| && l.name == run.requested[n] && WholePartition(run, l)
    requires RequestedAdded(run, n + 1, was + [l], now)
    ensures RequestedAdded(run, n, was, now)
  {
    hide WholePartition;
    var more := was + [l];
    assert IsRequested(run, n, l) && now[|was|] == more[|was|] == l;
    assert now[..|was|] == more[..|was|] == was;
    hide IsRequested;
    forall i | |was| <= i < |now| ensures IsRequested(run, n + i - |was|, now[i]) {
      if i > |was| {
        assert n + 1 + i - |more| == n + i - |was|;
      }
    }
  }

  lemma {:induction false} RequestedFacts(run: Run, s: Snapshot, n: nat)
    requires run.dev.Valid() && s.Bounded() && n <= |run.requested|
    ensures var (ret, t) := RequestedFrom(run, s, n);
            && t.Bounded() && Loads(run, s, t) && RequestedAdded(run, n, s.loaded, t.loaded) && (ret == Ok || !ShouldContinue(ret))
            && (ret == Ok ==> |t.loaded| == |s.loaded| + |run.requested| - n)
    decreases |run.requested| - n
  {
    hide WholePartition, Loads, VbmetaImage.Sized, Requested, RequestedAdded;
    LoadsNothing(run, s);
    NoneRequested(run, n, s.loaded);
    if n < |run.requested| {
      var full := Requested(run, run.requested[n]);
      RequestedIsWhole(run, run.requested[n]);
      if full.ret == Ok && |s.loaded| < MAX_LOADED_PARTITIONS {
        var l := LoadedPartition(run.requested[n], full.data, full.preloaded);
        var t := s.(loaded := s.loaded + [l], hashOf := s.hashOf + [(0, 0)]);
        RequestedFacts(run, t, n + 1);
        LoadsMore(run, s, l, RequestedFrom(run, t, n + 1).1);
        OneRequested(run, n, s.loaded, l, RequestedFrom(run, t, n + 1).1.loaded);
      }
    }
  }

  lemma NoneRequested(run: Run, n: nat, was: seq<LoadedPartition>)
    ensures RequestedAdded(run, n, was, was)
  {
  }

  lemma LoadsMore(run: Run, s: Snapshot, l: LoadedPartition, u: Snapshot)
    requires l.name in run.requested && WholePartition(run, l)
    requires Loads(run, s.(loaded := s.loaded + [l], hashOf := s.hashOf + [(0, 0)]), u)
    ensures Loads(run, s, u)
  {
    hide WholePartition, Sourced;
    var t := s.(loaded := s.loaded + [l], hashOf := s.hashOf + [(0, 0)]);
    SameStore(s.store);
    LoggedNothing(s, t);
    LoggedTrans(s, t, u);
    ExtendsTrans(s, t, u);
    if Sourced(run, s) {
      SourcedPartition(run, s, l, (0, 0));
    }
  }

  // ------------------------------------------------------- one descriptor

  /** No suffix for device-unique data, a name that fits, a known algorithm. */
  predicate LookupAllowed(d: HashtreeDescriptor, suffix: Name)
  {
    && ValidUtf8(d.name) && (d.flags % 2 != 0 || suffix == []) && |d.name| < PART_NAME_MAX_SIZE
    && DigestLength(d.algorithm) != 0
  }

  /** The digest size of a hashtree algorithm, 0 if it is not supported. */
  function DigestLength(algorithm: seq<byte>): nat
  {
    var name := CString(algorithm);
    if name == Ascii("sha1") then 20 else if name == Ascii("sha256") then 32 else if name == Ascii("sha512") then 64 else 0
  }

  lemma DigestLengths(name: seq<byte>)
    requires |name| <= 32 && NoNul(name)
    ensures DigestLength(name + Zeros(32 - |name|)) ==
              if name == [0x73, 0x68, 0x61, 0x31] then 20
              else if name == [0x73, 0x68, 0x61, 0x32, 0x35, 0x36] then 32
              else if name == [0x73, 0x68, 0x61, 0x35, 0x31, 0x32] then 64 else 0
  {
    hide Ascii;
    CStringOfField(name, 32 - |name|);
    ShaNames();
  }

  /** The persistent root digest of a hashtree descriptor that carries none. */
  ghost function LookupStep(run: Run, s: Snapshot, d: HashtreeDescriptor, isMain: bool): (SlotResult, Snapshot)
  {
    if !LookupAllowed(d, run.suffix) then (ErrorInvalidMetadata, s)
    else
      var name, size := CString(d.name), DigestLength(d.algorithm);
      var t := s.Asked(DigestLookup(run.vals.c, name, size));
      var read := ReadResult(t.store, run.vals.c, name, size, None);
      if read != Ok || !isMain then (read, t)
      else if t.substitutions >= MAX_SUBSTITUTIONS then (ErrorInvalidMetadata, t)
      else (Ok, t.(substitutions := t.substitutions + 1))
  }

  /** What a lookup comes to, where persistent values are implemented and can be read. */
  lemma LookupCodes(run: Run, s: Snapshot, d: HashtreeDescriptor, isMain: bool)
    requires run.vals.c.implemented && forall n :: run.vals.c.readFault(n) == NoFault
    ensures var (ret, t) := LookupStep(run, s, d, isMain);
            var name, size := Ascii("avb.persistent_digest.") + CString(d.name), DigestLength(d.algorithm);
            if !ValidUtf8(d.name) || (d.flags % 2 == 0 && run.suffix != []) || |d.name| >= 32 || size == 0 then
              ret == ErrorInvalidMetadata && t == s
            else if name !in s.store then ret == ErrorVerification
            else if |s.store[name]| != size || (isMain && s.substitutions >= 10) then ret == ErrorInvalidMetadata
            else ret == Ok && t.substitutions == s.substitutions + if isMain then 1 else 0
  {
    hide ValidUtf8, DigestLength, CString;
  }

  /** A descriptor that does not lead to another image. */
  ghost function PlainStep(run: Run, s: Snapshot, isMain: bool, mem: Memory, k: nat, p: nat): (Outcome, Snapshot)
    requires run.dev.Valid()
  {
    if Tag(mem, p) == TAG_HASH then
      var r := HashStep(run, s, mem, k, p); (Hash(r.0), r.1)
    else if Tag(mem, p) == TAG_KERNEL_CMDLINE then
      (if ParseCmdline(mem, p).None? || !ValidUtf8(ParseCmdline(mem, p).value) then Malformed else Skipped, s)
    else if Tag(mem, p) == TAG_HASHTREE then
      match ParseHashtree(mem, p)
      case None => (Malformed, s)
      case Some(d) =>
        if d.rootDigestLen != 0 then (Skipped, s)
        else var r := LookupStep(run, s, d, isMain); (Tree(r.0), r.1)
    else (Skipped, s)
  }

  predicate IsVbmetaName(nameMem: seq<byte>)
  {
    |nameMem| >= 6 && nameMem[..6] == Ascii("vbmeta")
  }

  /** How many calls can be nested from here: "vbmeta", the fallback to "boot", a chained image. */
  function Rank(location: int, nameMem: seq<byte>): nat
  {
    if location != 0 then 1 else if IsVbmetaName(nameMem) then 3 else 2
  }

  /** The memory a C string literal is in. */
  function Literal(s: string): seq<byte>
  {
    Ascii(s) + [0]
  }

  lemma LiteralNames()
    ensures CString(Literal("vbmeta")) == Ascii("vbmeta") == Literal("vbmeta")[..6]
    ensures CString(Literal("boot")) == Ascii("boot") == Literal("boot")[..4]
  {
    NameOfLiteral("vbmeta");
    NameOfLiteral("boot");
  }

  lemma {:induction false} NameOfLiteral(s: string)
    requires forall i :: 0 <= i < |s| ==> 0 < s[i] as int < B8
    ensures CString(Literal(s)) == Ascii(s)
  {
    if s != [] {
      assert Literal(s)[1..] == Literal(s[1..]);
      NameOfLiteral(s[1..]);
    } else {
      assert CString([0]) == [];
    }
  }

  predicate VerificationDisabled(mem: Memory)
  {
    |mem.bytes| >= HEADER_SIZE && HeaderOf(mem.bytes).flags / 2 % 2 == 1
  }

  /** The flag is the second lowest bit of byte 123. */
  lemma DisabledBit(mem: Memory)
    requires |mem.bytes| >= HEADER_SIZE
    ensures VerificationDisabled(mem) <==> mem.bytes[123] % 4 >= 2
  {
    var s := mem.bytes[120..124];
    assert HeaderOf(mem.bytes).flags == Be32(s) == BigEndian(s);
    assert BigEndian(s) == BigEndian(s[..3]) * B8 + s[3];
    hide HeaderOf, Be32, BigEndian;
    LowBits(BigEndian(s[..3]), s[3]);
  }

  lemma LowBits(high: nat, low: byte)
    ensures (high * B8 + low) / 2 % 2 == 1 <==> low % 4 >= 2
  {
    var q, r := 64 * high + low / 4, low % 4;
    assert high * B8 + low == 4 * q + r;
    SecondBit(q, r);
  }

  lemma SecondBit(q: nat, r: nat)
    requires r < 4
    ensures (4 * q + r) / 2 % 2 == 1 <==> r >= 2
  {
    var half := 2 * q + (if r >= 2 then 1 else 0);
    assert 2 * half <= 4 * q + r < 2 * half + 2;
    assert (4 * q + r) / 2 == half;
  }

  lemma NameOfChain(mem: Memory, p: nat)
    requires ParseChain(mem, p).Some?
    ensures var chain := ParseChain(mem, p).value;
            && |chain.name| <= |NameMemory(mem, p, chain)| && NameMemory(mem, p, chain)[..|chain.name|] == chain.name
            && (IsVbmetaName(NameMemory(mem, p, chain)) <==> mem.Slice(p + 92, 6) == Ascii("vbmeta"))
  {
    var n := |ParseChain(mem, p).value.name|;
    SlicePrefix(mem, p + 92, n, VBMETA_MAX_SIZE);
    SlicePrefix(mem, p + 92, 6, n + VBMETA_MAX_SIZE - 6);
  }

  lemma SlicePrefix(mem: Memory, o: nat, n: nat, m: nat)
    ensures mem.Slice(o, n + m)[..n] == mem.Slice(o, n)
  {
  }

  // ---------------------------------------------------- load_and_verify_vbmeta

  datatype Loaded = Loaded(ret: SlotResult, s: Snapshot, outcomes: seq<Outcome>)

  datatype Processed = Processed(ret: SlotResult, stop: bool, s: Snapshot, outcomes: seq<Outcome>)

  /** The chain descriptor at offset p of the top-level image. */
  ghost function ChainStep(run: Run, s: Snapshot, mem: Memory, p: nat): (Outcome, Snapshot)
    requires run.dev.Valid()
    decreases 1, 5, 0
  {
    match ParseChain(mem, p)
    case None => (Malformed, s)
    case Some(chain) =>
      var r := Load(run, s, ToI32(chain.rollbackLocation), NameMemory(mem, p, chain), |chain.name|, Some(chain.key), p);
      (Chain(r.ret), r.s)
  }

  /** One turn of the loop over the descriptors of image k. */
  ghost function Turn(run: Run, s: Snapshot, isMain: bool, mem: Memory, k: nat, p: nat): (Outcome, Snapshot)
    requires run.dev.Valid()
    decreases if isMain then 2 else 1, 0, 0
  {
    if Following(mem, p) % 8 != 0 then (Malformed, s)
    else if Tag(mem, p) != TAG_CHAIN_PARTITION then PlainStep(run, s, isMain, mem, k, p)
    else if isMain then ChainStep(run, s, mem, p)
    else (Malformed, s)
  }

  /** The loop from descriptor n on. */
  ghost function Turns(run: Run, s: Snapshot, isMain: bool, mem: Memory, k: nat, ret: SlotResult, outcomes: seq<Outcome>, n: nat): Processed
    requires run.dev.Valid()
    decreases if isMain then 2 else 1, 1, |AllDescriptors(mem)| - n
  {
    if n >= |AllDescriptors(mem)| then Processed(ret, false, s, outcomes)
    else
      var (o, t) := Turn(run, s, isMain, mem, k, AllDescriptors(mem)[n]);
      if Stops(run.allow, o) then Processed(Assigned(ret, o), true, t, outcomes + [o])
      else Turns(run, t, isMain, mem, k, Assigned(ret, o), outcomes + [o], n + 1)
  }

  /** The rollback index of an image whose descriptors are done is put in the table. */
  ghost function RollbackStep(location: int, rollbackIndex: u64, r: Processed): Loaded
  {
    if r.stop then Loaded(r.ret, r.s, r.outcomes)
    else if !(0 <= location < |r.s.rollbackIndexes|) then Loaded(ErrorInvalidMetadata, r.s, r.outcomes)
    else Loaded(r.ret, r.s.(rollbackIndexes := r.s.rollbackIndexes[location := rollbackIndex]), r.outcomes)
  }

  /** A location beyond the 32 of the table is refused after the descriptors, and the table stays. */
  lemma LocationRefused(location: int, rollbackIndex: u64, r: Processed)
    requires !r.stop && |r.s.rollbackIndexes| == 32 && (location < 0 || location >= 32)
    ensures RollbackStep(location, rollbackIndex, r) == Loaded(ErrorInvalidMetadata, r.s, r.outcomes)
  {
  }

  /** From the recorded image k on: its partitions or descriptors, then its rollback index. */
  ghost function After(run: Run, s: Snapshot, location: int, mem: Memory, k: nat, ret: SlotResult): Loaded
    requires run.dev.Valid() && |mem.bytes| >= HEADER_SIZE
    decreases if location == 0 then 2 else 1, 2, 0
  {
    if VerificationDisabled(mem) then
      var r := RequestedFrom(run, s, 0);
      Loaded(if r.0 != Ok then r.0 else ret, r.1, [])
    else
      RollbackStep(location, HeaderOf(mem.bytes).rollbackIndex, Turns(run, s, location == 0, mem, k, ret, [], 0))
  }

  // The loop, descriptor by descriptor.

  /** The slot data before descriptor n, as long as none ends the loop. */
  ghost function StateAt(run: Run, s: Snapshot, isMain: bool, mem: Memory, k: nat, n: nat): Snapshot
    requires run.dev.Valid() && n <= |AllDescriptors(mem)|
  {
    if n == 0 then s else Turn(run, StateAt(run, s, isMain, mem, k, n - 1), isMain, mem, k, AllDescriptors(mem)[n - 1]).1
  }

  ghost function OutcomeAt(run: Run, s: Snapshot, isMain: bool, mem: Memory, k: nat, n: nat): Outcome
    requires run.dev.Valid() && n < |AllDescriptors(mem)|
  {
    Turn(run, StateAt(run, s, isMain, mem, k, n), isMain, mem, k, AllDescriptors(mem)[n]).0
  }

  /** The outcomes of the first n descriptors. */
  ghost function OutcomesTo(run: Run, s: Snapshot, isMain: bool, mem: Memory, k: nat, n: nat): (outcomes: seq<Outcome>)
    requires run.dev.Valid() && n <= |AllDescriptors(mem)|
    ensures |outcomes| == n && forall i :: 0 <= i < n ==> outcomes[i] == OutcomeAt(run, s, isMain, mem, k, i)
  {
    seq(n, i requires 0 <= i < n => OutcomeAt(run, s, isMain, mem, k, i))
  }

  /** The loop arrives at descriptor n if none before it ends it. */
  lemma {:induction false} LoopArrives(run: Run, s: Snapshot, isMain: bool, mem: Memory, k: nat, ret0: SlotResult, n: nat)
    requires run.dev.Valid() && n <= |AllDescriptors(mem)|
    requires forall i :: 0 <= i < n ==> !Stops(run.allow, OutcomeAt(run, s, isMain, mem, k, i))
    ensures var outcomes := OutcomesTo(run, s, isMain, mem, k, n);
            Turns(run, s, isMain, mem, k, ret0, [], 0) ==
            Turns(run, StateAt(run, s, isMain, mem, k, n), isMain, mem, k, Result(ret0, outcomes), outcomes, n)
  {
    hide AllDescriptors, Turn, Turns, Stops, Assigned, Result, OutcomeAt, OutcomesTo, StateAt;
    if n == 0 {
      NothingYet(run, s, isMain, mem, k, ret0);
    } else {
      LoopArrives(run, s, isMain, mem, k, ret0, n - 1);
      OneMore(run, s, isMain, mem, k, ret0, n - 1);
      TurnsNext(run, StateAt(run, s, isMain, mem, k, n - 1), isMain, mem, k, Result(ret0, OutcomesTo(run, s, isMain, mem, k, n - 1)),
                OutcomesTo(run, s, isMain, mem, k, n - 1), n - 1);
    }
  }

  lemma NothingYet(run: Run, s: Snapshot, isMain: bool, mem: Memory, k: nat, ret0: SlotResult)
    requires run.dev.Valid()
    ensures OutcomesTo(run, s, isMain, mem, k, 0) == [] && StateAt(run, s, isMain, mem, k, 0) == s && Result(ret0, []) == ret0
  {
    hide AllDescriptors, Turn;
  }

  lemma OneMore(run: Run, s: Snapshot, isMain: bool, mem: Memory, k: nat, ret0: SlotResult, n: nat)
    requires run.dev.Valid() && n < |AllDescriptors(mem)|
    ensures var outcomes, o := OutcomesTo(run, s, isMain, mem, k, n), OutcomeAt(run, s, isMain, mem, k, n);
            OutcomesTo(run, s, isMain, mem, k, n + 1) == outcomes + [o] && Result(ret0, outcomes + [o]) == Assigned(Result(ret0, outcomes), o)
    ensures Turn(run, StateAt(run, s, isMain, mem, k, n), isMain, mem, k, AllDescriptors(mem)[n])
         == (OutcomeAt(run, s, isMain, mem, k, n), StateAt(run, s, isMain, mem, k, n + 1))
  {
    hide AllDescriptors, Turn, Assigned;
    ResultNext(ret0, OutcomesTo(run, s, isMain, mem, k, n), OutcomeAt(run, s, isMain, mem, k, n));
  }

  /** The loop, one turn at a time. */
  lemma TurnsNext(run: Run, s: Snapshot, isMain: bool, mem: Memory, k: nat, ret: SlotResult, outcomes: seq<Outcome>, n: nat)
    requires run.dev.Valid()
    ensures Turns(run, s, isMain, mem, k, ret, outcomes, n) ==
              if n >= |AllDescriptors(mem)| then Processed(ret, false, s, outcomes)
              else
                var (o, t) := Turn(run, s, isMain, mem, k, AllDescriptors(mem)[n]);
                if Stops(run.allow, o) then Processed(Assigned(ret, o), true, t, outcomes + [o])
                else Turns(run, t, isMain, mem, k, Assigned(ret, o), outcomes + [o], n + 1)
  {
    hide AllDescriptors, Turn, Assigned, Stops;
  }

  /** It runs to the end if none ends it ... */
  lemma LoopEndsAll(run: Run, s: Snapshot, isMain: bool, mem: Memory, k: nat, ret0: SlotResult)
    requires run.dev.Valid()
    requires forall i :: 0 <= i < |AllDescriptors(mem)| ==> !Stops(run.allow, OutcomeAt(run, s, isMain, mem, k, i))
    ensures var n := |AllDescriptors(mem)|;
            var outcomes := OutcomesTo(run, s, isMain, mem, k, n);
            Turns(run, s, isMain, mem, k, ret0, [], 0) ==
            Processed(Result(ret0, outcomes), false, StateAt(run, s, isMain, mem, k, n), outcomes)
  {
    hide AllDescriptors, Turn, Turns, OutcomeAt, StateAt, OutcomesTo, Result, Stops;
    var n := |AllDescriptors(mem)|;
    LoopArrives(run, s, isMain, mem, k, ret0, n);
    TurnsNext(run, StateAt(run, s, isMain, mem, k, n), isMain, mem, k, Result(ret0, OutcomesTo(run, s, isMain, mem, k, n)),
              OutcomesTo(run, s, isMain, mem, k, n), n);
  }

  /** ... and otherwise stops at the first that does. */
  lemma LoopStopsAt(run: Run, s: Snapshot, isMain: bool, mem: Memory, k: nat, ret0: SlotResult, n: nat)
    requires run.dev.Valid() && n < |AllDescriptors(mem)| && Stops(run.allow, OutcomeAt(run, s, isMain, mem, k, n))
    requires forall i :: 0 <= i < n ==> !Stops(run.allow, OutcomeAt(run, s, isMain, mem, k, i))
    ensures var outcomes := OutcomesTo(run, s, isMain, mem, k, n + 1);
            Turns(run, s, isMain, mem, k, ret0, [], 0) ==
            Processed(Result(ret0, outcomes), true, StateAt(run, s, isMain, mem, k, n + 1), outcomes)
  {
    hide AllDescriptors, Turn, Turns, Result, Stops, Assigned, StateAt, OutcomeAt, OutcomesTo;
    LoopArrives(run, s, isMain, mem, k, ret0, n);
    TurnsNext(run, StateAt(run, s, isMain, mem, k, n), isMain, mem, k, Result(ret0, OutcomesTo(run, s, isMain, mem, k, n)),
              OutcomesTo(run, s, isMain, mem, k, n), n);
    OneMore(run, s, isMain, mem, k, ret0, n);
  }

  /** No descriptor of an image ends the loop, a lookup follows every failed one, and there is a
      lookup at all, unless the image itself is in order. */
  ghost predicate LoopPasses(run: Run, s: Snapshot, isMain: bool, mem: Memory, k: nat, inOrder: bool)
    requires run.dev.Valid()
  {
    var n := |AllDescriptors(mem)|;
    && (forall i :: 0 <= i < n ==> !Stops(run.allow, OutcomeAt(run, s, isMain, mem, k, i)))
    && (inOrder || exists j :: 0 <= j < n && OutcomeAt(run, s, isMain, mem, k, j).Tree?)
    && (forall i :: 0 <= i < n && !Passed(OutcomeAt(run, s, isMain, mem, k, i)) ==>
          exists j :: i < j < n && OutcomeAt(run, s, isMain, mem, k, j).Tree?)
  }

  /** The descriptors of an image come to Ok if and only if none ends the loop and a lookup follows
      every failure, one from before the loop included. */
  lemma LoopOkIff(run: Run, s: Snapshot, isMain: bool, mem: Memory, k: nat, ret0: SlotResult)
    requires run.dev.Valid()
    ensures Turns(run, s, isMain, mem, k, ret0, [], 0).ret == Ok <==> LoopPasses(run, s, isMain, mem, k, ret0 == Ok)
  {
    hide AllDescriptors, Turns, OutcomeAt, StateAt, Result, Stops, Passed;
    var n := |AllDescriptors(mem)|;
    if forall i :: 0 <= i < n ==> !Stops(run.allow, OutcomeAt(run, s, isMain, mem, k, i)) {
      LoopEndsAll(run, s, isMain, mem, k, ret0);
      OkIffListed(run, s, isMain, mem, k, ret0, n);
    } else {
      var i := FirstStop(run, s, isMain, mem, k, 0);
      LoopStopsAt(run, s, isMain, mem, k, ret0, i);
      OkIffListed(run, s, isMain, mem, k, ret0, i + 1);
    }
  }

  lemma OkIffListed(run: Run, s: Snapshot, isMain: bool, mem: Memory, k: nat, ret0: SlotResult, n: nat)
    requires run.dev.Valid() && n <= |AllDescriptors(mem)|
    requires forall i :: 0 <= i < n - 1 ==> !Stops(run.allow, OutcomeAt(run, s, isMain, mem, k, i))
    ensures Result(ret0, OutcomesTo(run, s, isMain, mem, k, n)) == Ok <==>
              && (forall i :: 0 <= i < n ==> !Stops(run.allow, OutcomeAt(run, s, isMain, mem, k, i)))
              && (ret0 == Ok || exists j :: 0 <= j < n && OutcomeAt(run, s, isMain, mem, k, j).Tree?)
              && (forall i :: 0 <= i < n && !Passed(OutcomeAt(run, s, isMain, mem, k, i)) ==>
                    exists j :: i < j < n && OutcomeAt(run, s, isMain, mem, k, j).Tree?)
  {
    hide AllDescriptors, OutcomeAt, Result, Passed, Stops, OutcomesTo, LookupFrom, NoneStops, FailuresHidden;
    var outcomes := OutcomesTo(run, s, isMain, mem, k, n);
    ResultOkIff(run.allow, ret0, outcomes);
    Listed(run.allow, outcomes);
    assert forall i :: 0 <= i < n ==> outcomes[i] == OutcomeAt(run, s, isMain, mem, k, i);
  }

  lemma Listed(allow: bool, outcomes: seq<Outcome>)
    ensures NoneStops(allow, outcomes) <==> forall i :: 0 <= i < |outcomes| ==> !Stops(allow, outcomes[i])
    ensures LookupFrom(outcomes, 0) <==> exists j :: 0 <= j < |outcomes| && outcomes[j].Tree?
    ensures FailuresHidden(outcomes) <==>
              forall i :: 0 <= i < |outcomes| && !Passed(outcomes[i]) ==> exists j :: i < j < |outcomes| && outcomes[j].Tree?
  {
    hide Stops, Passed;
    if FailuresHidden(outcomes) {
      forall i | 0 <= i < |outcomes| && !Passed(outcomes[i]) ensures exists j :: i < j < |outcomes| && outcomes[j].Tree? {
        assert LookupFrom(outcomes, i + 1);
      }
    }
  }

  lemma FirstStop(run: Run, s: Snapshot, isMain: bool, mem: Memory, k: nat, from: nat) returns (i: nat)
    requires run.dev.Valid() && from <= |AllDescriptors(mem)|
    requires forall j :: 0 <= j < from ==> !Stops(run.allow, OutcomeAt(run, s, isMain, mem, k, j))
    requires exists j :: 0 <= j < |AllDescriptors(mem)| && Stops(run.allow, OutcomeAt(run, s, isMain, mem, k, j))
    ensures i < |AllDescriptors(mem)| && Stops(run.allow, OutcomeAt(run, s, isMain, mem, k, i))
    ensures forall j :: 0 <= j < i ==> !Stops(run.allow, OutcomeAt(run, s, isMain, mem, k, j))
    decreases |AllDescriptors(mem)| - from
  {
    hide AllDescriptors, OutcomeAt, Stops;
    if !Stops(run.allow, OutcomeAt(run, s, isMain, mem, k, from)) {
      i := FirstStop(run, s, isMain, mem, k, from + 1);
    } else {
      i := from;
    }
  }

  function ImageOf(nameMem: seq<byte>, mem: Memory, result: VerifyResult): VbmetaImage
    requires |mem.bytes| >= HEADER_SIZE
  {
    var header := HeaderOf(mem.bytes);
    VbmetaImage(CString(nameMem), mem, HEADER_SIZE + header.authSize + header.auxSize, result)
  }

  ghost function WithImage(s: Snapshot, image: VbmetaImage, p: nat): Snapshot
  {
    s.(images := s.images + [image], chainOf := s.chainOf + [p])
  }

  /** An image that was read is checked and recorded. */
  ghost function Examine(run: Run, s: Snapshot, location: int, nameMem: seq<byte>, expectedKey: Option<seq<byte>>, p: nat,
                         mem: Memory): Loaded
    requires run.dev.Valid()
    decreases if location == 0 then 2 else 1, 3, 0
  {
    var check := ImageCheck(run.dev, run.allow, mem, expectedKey, location % B32);
    CheckFacts(run.dev, run.allow, mem, expectedKey, location % B32);
    if !check.keep then Loaded(check.ret, s, [])
    else if |s.images| == MAX_VBMETA_IMAGES then Loaded(ErrorOom, s, [])
    else After(run, WithImage(s, ImageOf(nameMem, mem, check.result), p), location, mem, |s.images|, check.ret)
  }

  /** load_and_verify_vbmeta: read, check, record, and go on with what the image says. */
  ghost function Load(run: Run, s: Snapshot, location: int, nameMem: seq<byte>, nameLen: nat,
                      expectedKey: Option<seq<byte>>, p: nat): Loaded
    requires run.dev.Valid() && nameLen <= |nameMem|
    decreases Rank(location, nameMem), 4, 0
  {
    var lookForFooter := !IsVbmetaName(nameMem);
    var read := ImageRead(run, nameMem[..nameLen], lookForFooter);
    if location == 0 && read.io == NoSuchPartition && !lookForFooter then Load(run, s, 0, Literal("boot"), 4, None, p)
    else if read.ret != Ok then Loaded(read.ret, s, [])
    else Examine(run, s, location, nameMem, expectedKey, p, Memory(read.bytes, run.dev.behind))
  }

  // ------------------------------------------------------------ avb_slot_verify

  /** The slot data before anything is loaded. */
  ghost function Fresh(store: Store, log: seq<Event>): Snapshot
  {
    Snapshot([], [], [], [], seq(ROLLBACK_LOCATIONS, i => 0), 0, store, log)
  }

  /** The vbmeta structs in the order they were recorded. */
  function ImageParts(images: seq<VbmetaImage>): (parts: seq<seq<byte>>)
  {
    seq(|images|, k requires 0 <= k < |images| => images[k].Struct())
  }

  /** avb_slot_verify_data_calculate_vbmeta_digest with SHA-256. */
  ghost function VbmetaDigestOf(dev: Device, images: seq<VbmetaImage>): (d: seq<byte>)
    requires dev.Valid()
    ensures |d| == 32
  {
    Sha.Digest(dev.hashes.sha256, Sha.Joined(ImageParts(images)))
  }

  datatype Finished = Finished(ret: SlotResult, s: Snapshot, mode: ErrorMode)

  /** The steps after the images are loaded, which are skipped if verification is disabled: the
      error mode, resolved through the store if it is managed, and the command-line options. */
  ghost function Finishing(run: Run, s: Snapshot, corruption: bool, requested: ErrorMode): Finished
    requires run.dev.Valid() && s.images != []
  {
    if VerificationDisabled(s.images[0].mem) then Finished(Ok, s, Restart)
    else if requested != ManagedRestartAndEio then Finished(run.dev.optionsResult, s, requested)
    else
      var digest := VbmetaDigestOf(run.dev, s.images);
      var t, io := s.Asked(ManageMode(run.vals.c, corruption, digest)), ModeIo(s.store, run.vals.c, corruption, digest);
      if io != IoOk then Finished(FromIo(io), t, Restart)
      else Finished(run.dev.optionsResult, t, if MANAGED_VERITY_MODE in t.store then Eio else Restart)
  }

  predicate BadArguments(run: Run, requested: ErrorMode)
  {
    (requested == Logging && !run.allow) || (requested == ManagedRestartAndEio && !run.vals.c.implemented)
  }

  /** Everything that is loaded, starting from the partition "vbmeta". */
  ghost function Loading(run: Run, store: Store, log: seq<Event>): Loaded
    requires run.dev.Valid()
  {
    Load(run, Fresh(store, log), 0, Literal("vbmeta"), 6, None, 0)
  }

  /** Does verification get beyond loading? */
  predicate GoesOn(allow: bool, ret: SlotResult)
  {
    ShouldContinue(ret) && (ret == Ok || allow)
  }

  /** The result of the whole call. */
  ghost function ResultOf(run: Run, store: Store, log: seq<Event>, corruption: bool, requested: ErrorMode): SlotResult
    requires run.dev.Valid()
  {
    if BadArguments(run, requested) then ErrorInvalidArgument
    else
      var r := Loading(run, store, log);
      if !GoesOn(run.allow, r.ret) || r.s.images == [] then r.ret
      else
        var f := Finishing(run, r.s, corruption, requested);
        if f.ret != Ok then f.ret else r.ret
  }
}
