/** What every step of a run keeps: the slot data only grows, in strict mode only trusted images
    and verified partitions are in it, and Ok means that every descriptor was acted on, unless
    a digest lookup hides a failed chained image. */
module SlotSafety {
  import opened Words
  import opened Vbmeta
  import opened Descriptors
  import opened Persist
  import opened Slot
  import opened SlotRun

  /** The slot data is only added to, from the device, the store is as logged, and in strict mode
      trusted images stay trusted. */
  ghost predicate Grows(run: Run, s: Snapshot, t: Snapshot)
  {
    && Extends(s, t) && Logged(s, t) && (Sourced(run, s) ==> Sourced(run, t))
    && (!run.allow && Trusted(run, s) ==> Trusted(run, t))
  }

  lemma GrowsTrans(run: Run, s: Snapshot, t: Snapshot, u: Snapshot)
    requires Grows(run, s, t) && Grows(run, t, u)
    ensures Grows(run, s, u)
  {
    hide Trusted, Sourced, Logged;
    ExtendsTrans(s, t, u);
    LoggedTrans(s, t, u);
  }

  lemma GrowsRefl(run: Run, s: Snapshot)
    ensures Grows(run, s, s)
  {
    ExtendsRefl(s);
    LoggedNothing(s, s);
  }

  /** Changes to anything but the images keep them trusted. */
  lemma SameImagesGrow(run: Run, s: Snapshot, t: Snapshot)
    requires Extends(s, t) && Logged(s, t) && (Sourced(run, s) ==> Sourced(run, t)) && t.images == s.images && t.chainOf == s.chainOf
    ensures Grows(run, s, t)
  {
    hide RootTrusted, ChainTrusted, Logged, Sourced;
  }

  /** Settled up to the image whose descriptors are being handled: all chained images if that
      is the top-level one, otherwise those before it. */
  ghost predicate SettledBut(run: Run, s: Snapshot, isMain: bool, k: nat)
  {
    Settled(run, s, if isMain then |s.images| else k)
  }

  // --------------------------------------------------- kinds of outcomes

  /** The outcome is of the kind the descriptor at p calls for. */
  ghost predicate OutcomeOf(mem: Memory, p: nat, isMain: bool, o: Outcome)
  {
    if Following(mem, p) % 8 != 0 then o == Malformed
    else if Tag(mem, p) == TAG_HASH then o.Hash?
    else if Tag(mem, p) == TAG_CHAIN_PARTITION then
      if !isMain || ParseChain(mem, p).None? then o == Malformed else o.Chain?
    else if Tag(mem, p) == TAG_KERNEL_CMDLINE then
      o == if ParseCmdline(mem, p).None? || !ValidUtf8(ParseCmdline(mem, p).value) then Malformed else Skipped
    else if Tag(mem, p) == TAG_HASHTREE then
      if ParseHashtree(mem, p).None? then o == Malformed
      else if ParseHashtree(mem, p).value.rootDigestLen == 0 then o.Tree?
      else o == Skipped
    else o == Skipped
  }

  lemma TurnKind(run: Run, s: Snapshot, isMain: bool, mem: Memory, k: nat, p: nat)
    requires run.dev.Valid()
    ensures OutcomeOf(mem, p, isMain, Turn(run, s, isMain, mem, k, p).0)
  {
    hide HashStep, LookupStep, Load, ParseChain, ParseHashtree, ParseCmdline, Tag, Following, ValidUtf8;
  }

  ghost predicate OutcomesOf(mem: Memory, isMain: bool, outcomes: seq<Outcome>)
  {
    && |outcomes| <= |AllDescriptors(mem)|
    && forall i :: 0 <= i < |outcomes| ==> OutcomeOf(mem, AllDescriptors(mem)[i], isMain, outcomes[i])
  }

  /** A digest that was not found ended the loop: with errors allowed, the call goes on. */
  predicate CutShort(allow: bool, outcomes: seq<Outcome>)
  {
    allow && outcomes != [] && outcomes[|outcomes| - 1] == Tree(ErrorVerification)
  }

  /** One outcome per descriptor of the top-level image, none of which ended the loop, or as many as
      came before a digest that was not found; the result is what they leave of the one before
      the loop. */
  ghost predicate Explains(allow: bool, mem: Memory, ret0: SlotResult, outcomes: seq<Outcome>, ret: SlotResult)
  {
    && OutcomesOf(mem, true, outcomes) && ret == Result(ret0, outcomes)
    && (CutShort(allow, outcomes) || (|outcomes| == |AllDescriptors(mem)| && NoneStops(allow, outcomes)))
  }

  /** A hashtree descriptor whose digest is looked up. */
  predicate LooksUp(mem: Memory, p: nat)
  {
    Tag(mem, p) == TAG_HASHTREE && ParseHashtree(mem, p).Some? && ParseHashtree(mem, p).value.rootDigestLen == 0
  }

  /** A descriptor that can fail without ending the loop. */
  predicate MayFail(allow: bool, mem: Memory, p: nat)
  {
    Tag(mem, p) == TAG_CHAIN_PARTITION || (allow && Tag(mem, p) == TAG_HASH)
  }

  /** No descriptor that may fail is followed by one whose digest is looked up. */
  ghost predicate NoLateLookup(allow: bool, mem: Memory)
  {
    var all := AllDescriptors(mem);
    forall i, j :: 0 <= i < j < |all| && MayFail(allow, mem, all[i]) ==> !LooksUp(mem, all[j])
  }

  /** No digest is looked up. */
  ghost predicate NoLookup(mem: Memory)
  {
    forall p :: p in AllDescriptors(mem) ==> !LooksUp(mem, p)
  }

  lemma NoLateLookupPasses(allow: bool, mem: Memory, ret0: SlotResult, outcomes: seq<Outcome>)
    requires Explains(allow, mem, ret0, outcomes, Ok) && NoLateLookup(allow, mem)
    ensures AllPassed(outcomes) && (NoLookup(mem) ==> ret0 == Ok)
  {
    hide AllDescriptors, OutcomeOf, LooksUp, MayFail, AllPassed, Passed, Stops;
    assert !CutShort(allow, outcomes);
    hide Result;
    OkMeansPassed(allow, ret0, outcomes);
    var all := AllDescriptors(mem);
    forall i | 0 <= i < |outcomes|
      ensures !Passed(outcomes[i]) ==> MayFail(allow, mem, all[i])
      ensures outcomes[i].Tree? ==> LooksUp(mem, all[i])
    {
      KindsOf(allow, mem, all[i], outcomes[i]);
    }
    forall i, j | 0 <= i < j < |outcomes| ensures !Masked(outcomes, i, j) {
    }
  }

  /** Which descriptors have a lookup outcome, and which may fail. */
  lemma KindsOf(allow: bool, mem: Memory, p: nat, o: Outcome)
    requires OutcomeOf(mem, p, true, o)
    ensures o.Tree? ==> LooksUp(mem, p)
    ensures !Passed(o) && !Stops(allow, o) ==> MayFail(allow, mem, p)
  {
  }

  /** Passed, and, if errors are allowed, not a chained image, in which failures may have been hidden. */
  predicate Sure(allow: bool, o: Outcome)
  {
    Passed(o) && (allow ==> !o.Chain?)
  }

  predicate AllSure(allow: bool, outcomes: seq<Outcome>)
  {
    forall i :: 0 <= i < |outcomes| ==> Sure(allow, outcomes[i])
  }

  // ------------------------------------------------------- one descriptor

  /** Neither a hash nor a chain descriptor, so there is nothing that must follow. */
  lemma OtherFollowed(requested: seq<Name>, s: Snapshot, k: nat, p: nat)
    requires k < |s.images| && Tag(s.images[k].mem, p) != TAG_HASH && Tag(s.images[k].mem, p) != TAG_CHAIN_PARTITION
    ensures Followed(requested, s, k, p)
  {
  }

  lemma HashFollowed(requested: seq<Name>, s: Snapshot, k: nat, p: nat)
    requires k < |s.images| && Tag(s.images[k].mem, p) == TAG_HASH && ParseHash(s.images[k].mem, p).Some?
    requires ParseHash(s.images[k].mem, p).value.name in requested ==> (k, p) in s.hashOf
    ensures Followed(requested, s, k, p)
  {
  }

  lemma ChainFollowed(requested: seq<Name>, s: Snapshot, j: nat, p: nat)
    requires 0 < |s.images| && Tag(s.images[0].mem, p) == TAG_CHAIN_PARTITION
    requires 1 <= j < |s.chainOf| && s.chainOf[j] == p
    ensures Followed(requested, s, 0, p)
  {
  }

  lemma LookupKeeps(run: Run, s: Snapshot, d: HashtreeDescriptor, isMain: bool)
    ensures var t := LookupStep(run, s, d, isMain).1;
            Loads(run, s, t) && t.loaded == s.loaded && t.hashOf == s.hashOf && t.store == s.store
    ensures var r := LookupStep(run, s, d, isMain).0; r == Ok || r == ErrorVerification || !ShouldContinue(r)
  {
    hide LookupAllowed, Loads;
    LoadsNothing(run, s);
    var e := DigestLookup(run.vals.c, CString(d.name), DigestLength(d.algorithm));
    LoadsAsked(run, s, s.Asked(e), e);
    LoadsAsked(run, s, s.Asked(e).(substitutions := s.substitutions + 1), e);
  }

  lemma PlainKeeps(run: Run, s: Snapshot, isMain: bool, mem: Memory, k: nat, p: nat)
    requires run.dev.Valid() && s.Bounded() && k < |s.images| && s.images[k].mem == mem && p in AllDescriptors(mem)
    requires Tag(mem, p) != TAG_CHAIN_PARTITION
    ensures var (o, t) := PlainStep(run, s, isMain, mem, k, p);
            && t.Bounded() && Loads(run, s, t) && !o.Chain?
            && (Passed(o) && Verified(run, s) ==> Verified(run, t))
            && (Passed(o) ==> Followed(run.requested, t, k, p))
            && (o.Tree? ==> o.r == Ok || o.r == ErrorVerification || !ShouldContinue(o.r))
  {
    hide ParseHash, ParseHashtree, ParseCmdline, AllDescriptors, Verified, ValidUtf8, Followed, Tag, VbmetaImage.Sized, HashStep,
         LookupStep, Loads;
    LoadsNothing(run, s);
    if Tag(mem, p) == TAG_HASH {
      HashLoads(run, s, mem, k, p);
      var (r, t) := HashStep(run, s, mem, k, p);
      SameImages(run, s, t);
      if r == Ok {
        HashFollowed(run.requested, t, k, p);
      }
    } else {
      OtherFollowed(run.requested, s, k, p);
      if ParseHashtree(mem, p).Some? {
        var d := ParseHashtree(mem, p).value;
        LookupKeeps(run, s, d, isMain);
        LookupElsewhere(run, s, d, isMain, k, p);
      }
    }
  }

  /** A lookup changes neither images nor partitions. */
  lemma LookupElsewhere(run: Run, s: Snapshot, d: HashtreeDescriptor, isMain: bool, k: nat, p: nat)
    requires run.dev.Valid() && s.Bounded() && k < |s.images| && Followed(run.requested, s, k, p)
    ensures var t := LookupStep(run, s, d, isMain).1;
            t.Bounded() && Followed(run.requested, t, k, p) && (Verified(run, s) ==> Verified(run, t))
  {
    hide Followed, Verified, LookupStep, VbmetaImage.Sized, Extends, Logged;
    LookupKeeps(run, s, d, isMain);
    var t := LookupStep(run, s, d, isMain).1;
    FollowedStays(run.requested, s, t, k, p);
    if Verified(run, s) {
      VerifiedStays(run, s, t);
    }
  }

  /** What one turn does to everything the loop keeps. */
  ghost predicate TurnKept(run: Run, s: Snapshot, isMain: bool, k: nat, p: nat, o: Outcome, t: Snapshot)
  {
    && t.Bounded() && Grows(run, s, t) && (o.Tree? ==> o.r == Ok || o.r == ErrorVerification || !ShouldContinue(o.r))
    && (!isMain ==> !o.Chain? && t.images == s.images && t.rollbackIndexes == s.rollbackIndexes)
    && (Sure(run.allow, o) && SettledBut(run, s, isMain, k) ==> SettledBut(run, t, isMain, k))
    && (Sure(run.allow, o) ==> Followed(run.requested, t, k, p))
  }

  lemma PlainTurnKeeps(run: Run, s: Snapshot, isMain: bool, mem: Memory, k: nat, p: nat)
    requires run.dev.Valid() && s.Bounded() && k < |s.images| && s.images[k].mem == mem && p in AllDescriptors(mem)
    requires Tag(mem, p) != TAG_CHAIN_PARTITION
    ensures var (o, t) := PlainStep(run, s, isMain, mem, k, p); TurnKept(run, s, isMain, k, p, o, t)
  {
    hide AllDescriptors, Verified, Trusted, Followed, Tag, VbmetaImage.Sized, Extends, Logged, PlainStep, ImageFollowed;
    PlainKeeps(run, s, isMain, mem, k, p);
    var (o, t) := PlainStep(run, s, isMain, mem, k, p);
    SameImagesGrow(run, s, t);
    if Passed(o) && SettledBut(run, s, isMain, k) {
      SettledStays(run, s, t, if isMain then |s.images| else k);
    }
  }

  lemma NothingTurned(run: Run, s: Snapshot, isMain: bool, k: nat, p: nat)
    requires s.Bounded()
    ensures TurnKept(run, s, isMain, k, p, Malformed, s)
  {
    GrowsRefl(run, s);
  }

  lemma TurnKeeps(run: Run, s: Snapshot, isMain: bool, mem: Memory, k: nat, p: nat)
    requires run.dev.Valid() && s.Bounded() && k < |s.images| && s.images[k].mem == mem && p in AllDescriptors(mem)
    requires isMain ==> k == 0
    ensures var (o, t) := Turn(run, s, isMain, mem, k, p); TurnKept(run, s, isMain, k, p, o, t)
    decreases if isMain then 2 else 1, 0, 0
  {
    hide TurnKept, AllDescriptors, Tag, Following, VbmetaImage.Sized, PlainStep, ChainStep;
    NothingTurned(run, s, isMain, k, p);
    if Following(mem, p) % 8 == 0 {
      if Tag(mem, p) != TAG_CHAIN_PARTITION {
        PlainTurnKeeps(run, s, isMain, mem, k, p);
      } else if isMain {
        ChainTurnKeeps(run, s, mem, p);
      }
    }
  }

  lemma ChainTurnKeeps(run: Run, s: Snapshot, mem: Memory, p: nat)
    requires run.dev.Valid() && s.Bounded() && 0 < |s.images| && s.images[0].mem == mem && p in AllDescriptors(mem)
    requires Tag(mem, p) == TAG_CHAIN_PARTITION
    ensures var (o, t) := ChainStep(run, s, mem, p); TurnKept(run, s, true, 0, p, o, t)
    decreases 1, 6, 0
  {
    hide AllDescriptors, Trusted, Followed, Tag, VbmetaImage.Sized, Extends, Logged, ChainStep, Settled;
    ChainKeeps(run, s, mem, p);
    var (o, t) := ChainStep(run, s, mem, p);
    if !run.allow && Passed(o) {
      ExtendsImage(s, t, 0);
      ChainFollowed(run.requested, t, |s.chainOf|, p);
    }
  }

  /** The chain descriptor at offset p of the top-level image is the reason for this call. */
  ghost predicate ChainCall(s: Snapshot, location: int, name: Name, footers: bool, expectedKey: Option<seq<byte>>, p: nat)
  {
    && |s.images| > 0 && p in AllDescriptors(s.images[0].mem)
    && (footers <==> s.images[0].mem.Slice(p + 92, 6) != Ascii("vbmeta"))
    && var chain := ParseChain(s.images[0].mem, p);
       && chain.Some? && name == chain.value.name && expectedKey == Some(chain.value.key)
       && location == ToI32(chain.value.rollbackLocation)
  }

  /** The name a chained image is recorded under. */
  function ChainName(s: Snapshot, p: nat): Name
    requires |s.images| > 0 && ParseChain(s.images[0].mem, p).Some?
  {
    CString(NameMemory(s.images[0].mem, p, ParseChain(s.images[0].mem, p).value))
  }

  ghost predicate MainCall(s: Snapshot, nameMem: seq<byte>, nameLen: nat, expectedKey: Option<seq<byte>>)
  {
    && s.images == [] && s.loaded == [] && expectedKey == None && nameLen + 1 == |nameMem|
    && (nameMem == Literal("vbmeta") || nameMem == Literal("boot"))
  }

  lemma ChainKeeps(run: Run, s: Snapshot, mem: Memory, p: nat)
    requires run.dev.Valid() && s.Bounded() && 0 < |s.images| && s.images[0].mem == mem && p in AllDescriptors(mem)
    ensures var (o, t) := ChainStep(run, s, mem, p);
            && t.Bounded() && Grows(run, s, t)
            && (o == Malformed || o.Chain?) && (o == Malformed <==> ParseChain(mem, p).None?)
            && (!run.allow && Passed(o) ==> |t.chainOf| > |s.chainOf| && t.chainOf[|s.chainOf|] == p)
            && (!run.allow && Passed(o) && Settled(run, s, |s.images|) ==> Settled(run, t, |t.images|))
    decreases 1, 5, 0
  {
    hide ParseChain, AllDescriptors, Settled, Grows, VbmetaImage.Sized, Load, NameMemory;
    GrowsRefl(run, s);
    if ParseChain(mem, p).Some? {
      var chain := ParseChain(mem, p).value;
      NameOfChain(mem, p);
      assert ChainCall(s, ToI32(chain.rollbackLocation), chain.name, !IsVbmetaName(NameMemory(mem, p, chain)), Some(chain.key), p);
      LoadKeeps(run, s, ToI32(chain.rollbackLocation), NameMemory(mem, p, chain), |chain.name|, Some(chain.key), p);
    }
  }

  // --------------------------------------------------------------- the loop

  /** What the loop has established after n descriptors. */
  ghost predicate LoopKept(run: Run, s: Snapshot, isMain: bool, mem: Memory, k: nat, ret0: SlotResult, ret: SlotResult,
                           outcomes: seq<Outcome>)
  {
    && s.Bounded() && k < |s.images| && s.images[k].mem == mem && OutcomesOf(mem, isMain, outcomes)
    && ret == Result(ret0, outcomes)
    && (!isMain ==> forall i :: 0 <= i < |outcomes| ==> !outcomes[i].Chain?)
    && NoneStops(run.allow, outcomes)
    && (AllSure(run.allow, outcomes) ==> PrefixFollowed(run.requested, s, k, |outcomes|))
  }

  /** What the loop as a whole does, from s to r.s. */
  ghost predicate ProcessKept(run: Run, s: Snapshot, isMain: bool, mem: Memory, k: nat, ret0: SlotResult, r: Processed)
  {
    && r.s.Bounded() && Grows(run, s, r.s)
    && (!isMain ==> r.s.images == s.images && r.s.rollbackIndexes == s.rollbackIndexes)
    && (!isMain ==> forall i :: 0 <= i < |r.outcomes| ==> !r.outcomes[i].Chain?)
    && OutcomesOf(mem, isMain, r.outcomes) && r.ret == Result(ret0, r.outcomes)
    && (!r.stop ==> NoneStops(run.allow, r.outcomes) && |r.outcomes| == |AllDescriptors(mem)|)
    && (AllSure(run.allow, r.outcomes) && SettledBut(run, s, isMain, k) ==> SettledBut(run, r.s, isMain, k))
    && (AllSure(run.allow, r.outcomes) && !r.stop ==> ImageFollowed(run.requested, r.s, k))
    && (r.stop ==> r.ret != Ok && (run.allow && ShouldContinue(r.ret) ==> CutShort(run.allow, r.outcomes)))
  }

  lemma OutcomesNext(mem: Memory, isMain: bool, outcomes: seq<Outcome>, o: Outcome)
    requires OutcomesOf(mem, isMain, outcomes) && |outcomes| < |AllDescriptors(mem)|
    requires OutcomeOf(mem, AllDescriptors(mem)[|outcomes|], isMain, o)
    ensures OutcomesOf(mem, isMain, outcomes + [o])
  {
    hide OutcomeOf, AllDescriptors;
  }

  lemma SureNext(allow: bool, outcomes: seq<Outcome>, o: Outcome)
    ensures AllSure(allow, outcomes + [o]) <==> AllSure(allow, outcomes) && Sure(allow, o)
    ensures NoneStops(allow, outcomes + [o]) <==> NoneStops(allow, outcomes) && !Stops(allow, o)
  {
    hide Sure, Stops;
    var all := outcomes + [o];
    assert all[|outcomes|] == o && forall i :: 0 <= i < |outcomes| ==> all[i] == outcomes[i];
  }

  /** One more turn that does not end the loop. */
  lemma LoopNext(run: Run, s: Snapshot, isMain: bool, mem: Memory, k: nat, ret0: SlotResult, ret: SlotResult, outcomes: seq<Outcome>,
                 o: Outcome, t: Snapshot)
    requires LoopKept(run, s, isMain, mem, k, ret0, ret, outcomes) && |outcomes| < |AllDescriptors(mem)|
    requires OutcomeOf(mem, AllDescriptors(mem)[|outcomes|], isMain, o)
    requires TurnKept(run, s, isMain, k, AllDescriptors(mem)[|outcomes|], o, t) && !Stops(run.allow, o)
    ensures LoopKept(run, t, isMain, mem, k, ret0, Assigned(ret, o), outcomes + [o])
  {
    hide OutcomeOf, OutcomesOf, AllDescriptors, Trusted, Extends, Logged, Followed, SettledBut, VbmetaImage.Sized, PrefixFollowed,
         Assigned, Result, AllSure, Stops, Sure, NoneStops;
    ExtendsImage(s, t, k);
    OutcomesNext(mem, isMain, outcomes, o);
    ResultNext(ret0, outcomes, o);
    SureNext(run.allow, outcomes, o);
    if AllSure(run.allow, outcomes + [o]) {
      PrefixNext(run.requested, s, t, k, |outcomes|);
    }
  }

  lemma {:induction false} TurnsKeep(run: Run, s: Snapshot, isMain: bool, mem: Memory, k: nat, ret0: SlotResult, ret: SlotResult,
                                     outcomes: seq<Outcome>)
    requires run.dev.Valid() && (isMain ==> k == 0) && LoopKept(run, s, isMain, mem, k, ret0, ret, outcomes)
    ensures ProcessKept(run, s, isMain, mem, k, ret0, Turns(run, s, isMain, mem, k, ret, outcomes, |outcomes|))
    ensures outcomes <= Turns(run, s, isMain, mem, k, ret, outcomes, |outcomes|).outcomes
    decreases if isMain then 2 else 1, 1, |AllDescriptors(mem)| - |outcomes|
  {
    hide AllDescriptors, TurnKept, LoopKept, ProcessKept, Turn, Stops, Assigned, OutcomeOf;
    LoopFacts(run, s, isMain, mem, k, ret0, ret, outcomes);
    var all, n := AllDescriptors(mem), |outcomes|;
    if n >= |all| {
      LoopEnds(run, s, isMain, mem, k, ret0, ret, outcomes);
    } else {
      var (o, t) := Turn(run, s, isMain, mem, k, all[n]);
      TurnKeeps(run, s, isMain, mem, k, all[n]);
      TurnKind(run, s, isMain, mem, k, all[n]);
      if Stops(run.allow, o) {
        LoopStops(run, s, isMain, mem, k, ret0, ret, outcomes, o, t);
      } else {
        LoopNext(run, s, isMain, mem, k, ret0, ret, outcomes, o, t);
        TurnsKeep(run, t, isMain, mem, k, ret0, Assigned(ret, o), outcomes + [o]);
        var r := Turns(run, t, isMain, mem, k, Assigned(ret, o), outcomes + [o], n + 1);
        assert r.outcomes[n] == o;
        TurnThenRest(run, s, t, isMain, mem, k, ret0, n, o, r);
      }
    }
  }

  lemma LoopFacts(run: Run, s: Snapshot, isMain: bool, mem: Memory, k: nat, ret0: SlotResult, ret: SlotResult, outcomes: seq<Outcome>)
    requires LoopKept(run, s, isMain, mem, k, ret0, ret, outcomes)
    ensures s.Bounded() && k < |s.images| && s.images[k].mem == mem && |outcomes| <= |AllDescriptors(mem)|
  {
    hide AllDescriptors, OutcomeOf;
  }

  /** All descriptors are done. */
  lemma LoopEnds(run: Run, s: Snapshot, isMain: bool, mem: Memory, k: nat, ret0: SlotResult, ret: SlotResult, outcomes: seq<Outcome>)
    requires LoopKept(run, s, isMain, mem, k, ret0, ret, outcomes) && |outcomes| == |AllDescriptors(mem)|
    ensures ProcessKept(run, s, isMain, mem, k, ret0, Processed(ret, false, s, outcomes))
  {
    hide OutcomeOf, AllDescriptors, Trusted, Extends, Logged, SettledBut, VbmetaImage.Sized, Grows, PrefixFollowed, Result, NoneStops,
         AllSure;
    GrowsRefl(run, s);
  }

  /** A turn ends the loop. */
  lemma LoopStops(run: Run, s: Snapshot, isMain: bool, mem: Memory, k: nat, ret0: SlotResult, ret: SlotResult, outcomes: seq<Outcome>,
                  o: Outcome, t: Snapshot)
    requires LoopKept(run, s, isMain, mem, k, ret0, ret, outcomes) && |outcomes| < |AllDescriptors(mem)|
    requires OutcomeOf(mem, AllDescriptors(mem)[|outcomes|], isMain, o)
    requires TurnKept(run, s, isMain, k, AllDescriptors(mem)[|outcomes|], o, t) && Stops(run.allow, o)
    ensures ProcessKept(run, s, isMain, mem, k, ret0, Processed(Assigned(ret, o), true, t, outcomes + [o]))
  {
    hide OutcomeOf, OutcomesOf, AllDescriptors, Followed, SettledBut, VbmetaImage.Sized, Grows, PrefixFollowed, Result, AllSure, NoneStops;
    OutcomesNext(mem, isMain, outcomes, o);
    ResultNext(ret0, outcomes, o);
    SureNext(run.allow, outcomes, o);
  }

  /** A turn, and then the rest of the loop. */
  lemma TurnThenRest(run: Run, s: Snapshot, t: Snapshot, isMain: bool, mem: Memory, k: nat, ret0: SlotResult, n: nat, o: Outcome, r: Processed)
    requires n < |AllDescriptors(mem)| && TurnKept(run, s, isMain, k, AllDescriptors(mem)[n], o, t)
    requires ProcessKept(run, t, isMain, mem, k, ret0, r) && n < |r.outcomes| && r.outcomes[n] == o
    ensures ProcessKept(run, s, isMain, mem, k, ret0, r)
  {
    hide OutcomesOf, AllDescriptors, Followed, SettledBut, VbmetaImage.Sized, Grows, ImageFollowed, Result, NoneStops, Sure;
    GrowsTrans(run, s, t, r.s);
  }

  lemma ProcessBounded(run: Run, s: Snapshot, isMain: bool, mem: Memory, k: nat, ret0: SlotResult, r: Processed)
    requires ProcessKept(run, s, isMain, mem, k, ret0, r)
    ensures r.s.Bounded()
  {
  }

  lemma LoopStarts(run: Run, s: Snapshot, isMain: bool, k: nat, ret: SlotResult)
    requires s.Bounded() && k < |s.images|
    ensures LoopKept(run, s, isMain, s.images[k].mem, k, ret, ret, [])
  {
  }

  /** Without chain outcomes, going on in strict mode means having passed. */
  lemma NoChainPassed(outcomes: seq<Outcome>)
    requires NoneStops(false, outcomes) && forall i :: 0 <= i < |outcomes| ==> !outcomes[i].Chain?
    ensures AllSure(false, outcomes)
  {
  }

  // ---------------------------------------------------- load_and_verify_vbmeta

  /** The image's rollback index is in the table at its location; a chained image changes
      only that entry. */
  ghost predicate RollbackRecorded(mem: Memory, location: int, before: seq<u64>, after: seq<u64>)
  {
    && 0 <= location < ROLLBACK_LOCATIONS == |before| == |after| && |mem.bytes| >= HEADER_SIZE
    && after[location] == HeaderOf(mem.bytes).rollbackIndex
    && (location != 0 ==> after == before[location := after[location]])
  }

  /** Exactly the requested partitions are loaded, in order, each in full. */
  ghost predicate AllRequested(run: Run, loaded: seq<LoadedPartition>)
  {
    |loaded| == |run.requested| && RequestedAdded(run, 0, [], loaded)
  }

  /** From the recorded image k on, with the result ret0 of its checks. */
  ghost predicate AfterKept(run: Run, s: Snapshot, location: int, mem: Memory, k: nat, ret0: SlotResult, r: Loaded)
  {
    && r.s.Bounded() && Grows(run, s, r.s) && (location != 0 ==> r.s.images == s.images)
    && (GoesOn(run.allow, r.ret) && !VerificationDisabled(mem) && !CutShort(run.allow, r.outcomes) ==>
          RollbackRecorded(mem, location, s.rollbackIndexes, r.s.rollbackIndexes))
    && (location != 0 && !run.allow && r.ret == Ok && Settled(run, s, k) ==> Settled(run, r.s, |r.s.images|))
    && (location == 0 && GoesOn(run.allow, r.ret) ==> Ends(run, mem, ret0, r))
  }

  /** How a call for the top-level image ends if it can go on, with the result ret0 of its checks. */
  ghost predicate Ends(run: Run, mem: Memory, ret0: SlotResult, r: Loaded)
  {
    if VerificationDisabled(mem) then r.ret == ret0 && AllRequested(run, r.s.loaded)
    else Explains(run.allow, mem, ret0, r.outcomes, r.ret) && (AllSure(run.allow, r.outcomes) ==> Complete(run, r.s))
  }

  lemma AfterKeeps(run: Run, s: Snapshot, location: int, mem: Memory, k: nat, ret: SlotResult)
    requires run.dev.Valid() && s.Bounded() && |s.images| == k + 1 && s.images[k].mem == mem && |mem.bytes| >= HEADER_SIZE
    requires location == 0 ==> k == 0 && s.loaded == []
    requires location != 0 ==> HeaderOf(mem.bytes).flags == 0
    requires ShouldContinue(ret) && (!run.allow ==> ret == Ok)
    ensures AfterKept(run, s, location, mem, k, ret, After(run, s, location, mem, k, ret))
    decreases if location == 0 then 2 else 1, 2, 0
  {
    hide AfterKept, LoopKept, ProcessKept, Turns, HeaderOf, RequestedFrom;
    if VerificationDisabled(mem) {
      DisabledKeeps(run, s, location, mem, k, ret);
    } else {
      LoopStarts(run, s, location == 0, k, ret);
      TurnsKeep(run, s, location == 0, mem, k, ret, ret, []);
      ProcessedKeeps(run, s, location, mem, k, ret, Turns(run, s, location == 0, mem, k, ret, [], 0));
    }
  }

  lemma DisabledKeeps(run: Run, s: Snapshot, location: int, mem: Memory, k: nat, ret: SlotResult)
    requires run.dev.Valid() && s.Bounded() && |mem.bytes| >= HEADER_SIZE && VerificationDisabled(mem)
    requires location == 0 ==> s.loaded == []
    requires location != 0 ==> HeaderOf(mem.bytes).flags == 0
    ensures AfterKept(run, s, location, mem, k, ret, After(run, s, location, mem, k, ret))
  {
    hide HeaderOf, RequestedFrom, RequestedAdded, VbmetaImage.Sized, Extends, Logged, Grows, Trusted, Settled, Sourced;
    RequestedFacts(run, s, 0);
    SameImagesGrow(run, s, RequestedFrom(run, s, 0).1);
  }

  /** After the loop: the rollback index. */
  lemma ProcessedKeeps(run: Run, s: Snapshot, location: int, mem: Memory, k: nat, ret: SlotResult, r: Processed)
    requires run.dev.Valid() && s.Bounded() && |s.images| == k + 1 && s.images[k].mem == mem && |mem.bytes| >= HEADER_SIZE
    requires location == 0 ==> k == 0 && s.loaded == []
    requires !run.allow ==> ret == Ok
    requires ProcessKept(run, s, location == 0, mem, k, ret, r) && !VerificationDisabled(mem)
    requires r == Turns(run, s, location == 0, mem, k, ret, [], 0)
    ensures AfterKept(run, s, location, mem, k, ret, After(run, s, location, mem, k, ret))
  {
    hide HeaderOf, VbmetaImage.Sized, Extends, Logged, Grows, Trusted, Sourced, Verified, AllDescriptors, OutcomesOf, ImageFollowed, Result,
         NoneStops, AllSure, Turns;
    if CutShort(run.allow, r.outcomes) {
      CutNotSure(run.allow, r.outcomes);
    }
    if !r.stop && 0 <= location < ROLLBACK_LOCATIONS {
      var t := r.s.(rollbackIndexes := r.s.rollbackIndexes[location := HeaderOf(mem.bytes).rollbackIndex]);
      SameButRollback(run, s, r.s, t);
      if location != 0 && !run.allow {
        NoChainPassed(r.outcomes);
      }
      NothingLoaded(run, s);
    }
  }

  lemma CutNotSure(allow: bool, outcomes: seq<Outcome>)
    requires CutShort(allow, outcomes)
    ensures !AllSure(allow, outcomes)
  {
    assert !Sure(allow, outcomes[|outcomes| - 1]);
  }

  lemma NothingLoaded(run: Run, s: Snapshot)
    requires run.dev.Valid() && |s.hashOf| == |s.loaded|
    ensures s.loaded == [] ==> Verified(run, s)
  {
  }

  /** The rollback table plays no part in trust or verification. */
  lemma SameButRollback(run: Run, first: Snapshot, s: Snapshot, t: Snapshot)
    requires t == s.(rollbackIndexes := t.rollbackIndexes) && Grows(run, first, s)
    ensures Grows(run, first, t)
    ensures forall n: nat :: Settled(run, s, n) ==> Settled(run, t, n)
    ensures Complete(run, s) ==> Complete(run, t)
    ensures forall k: nat :: ImageFollowed(run.requested, s, k) ==> ImageFollowed(run.requested, t, k)
  {
    hide Verified, Followed, AllDescriptors, Trusted, Logged, Sourced;
    assert Extends(s, t) by {
      SameStore(s.store);
    }
    LoggedNothing(s, t);
    if Sourced(run, s) {
      SourcedStays(run, s, t);
    }
    SameImagesGrow(run, s, t);
    GrowsTrans(run, first, s, t);
    assert Verified(run, s) ==> Verified(run, t) by {
      if Verified(run, s) {
        VerifiedStays(run, s, t);
      }
    }
    forall k: nat | ImageFollowed(run.requested, s, k) ensures ImageFollowed(run.requested, t, k) {
      PrefixStays(run.requested, s, t, k, |AllDescriptors(s.images[k].mem)|);
    }
  }

  /** Records an image that passed the checks. */
  lemma ImageRecorded(run: Run, s: Snapshot, image: VbmetaImage, p: nat, location: int, name: Name, footers: bool,
                      expectedKey: Option<seq<byte>>)
    requires run.dev.Valid() && s.Bounded() && |s.images| < MAX_VBMETA_IMAGES && image.Sized()
    requires ReadFrom(run, name, footers, image.mem.bytes) && image.result == VerifyResultOf(run.dev.hashes, image.mem)
    requires |image.mem.bytes| >= 256 && image.size == 256 + BigEndian(image.mem.bytes[12..20]) + BigEndian(image.mem.bytes[20..28])
    requires if location == 0 then
               && s.images == [] && expectedKey == None && name == image.name && (footers <==> image.name != Ascii("vbmeta"))
               && (name == Ascii("vbmeta") || name == Ascii("boot"))
             else ChainCall(s, location, name, footers, expectedKey, p) && image.name == ChainName(s, p)
    requires !run.allow ==> image.result == VerifyOk && Kept(run.dev, image.mem, expectedKey, location % B32)
    ensures var t := WithImage(s, image, p);
            && t.Bounded() && Grows(run, s, t)
            && (!run.allow && Settled(run, s, |s.images|) ==> Settled(run, t, |s.images|))
  {
    hide Trusted, Sourced, Verified, AllDescriptors, ParseChain, Accepted, HeaderOf, Metadata, ImageFollowed, ReadFrom, VbmetaImage.Sized,
         Logged, VerifyResultOf, BigEndian, NameMemory;
    var t := WithImage(s, image, p);
    SameStore(s.store);
    LoggedNothing(s, t);
    if Sourced(run, s) {
      SourcedImage(run, s, image, p);
    }
    if !run.allow && Trusted(run, s) {
      TrustedAppend(run, s, image, p);
    }
    if !run.allow && Settled(run, s, |s.images|) {
      VerifiedStays(run, s, t);
      SettledStays(run, s, t, |s.images|);
    }
  }

  lemma SourcedImage(run: Run, s: Snapshot, image: VbmetaImage, p: nat)
    requires Sourced(run, s) && image.result == VerifyResultOf(run.dev.hashes, image.mem)
    requires |image.mem.bytes| >= 256 && image.size == 256 + BigEndian(image.mem.bytes[12..20]) + BigEndian(image.mem.bytes[20..28])
    requires if s.images == [] then ReadFrom(run, image.name, image.name != Ascii("vbmeta"), image.mem.bytes)
             else
               var root := s.images[0].mem;
               && p in AllDescriptors(root) && ParseChain(root, p).Some? && image.name == ChainName(s, p)
               && ReadFrom(run, ParseChain(root, p).value.name, root.Slice(p + 92, 6) != Ascii("vbmeta"), image.mem.bytes)
    ensures Sourced(run, WithImage(s, image, p))
  {
    hide ReadFrom, AllDescriptors, ParseHash, ParseChain, VerifyResultOf, BigEndian, NameMemory, LoadedFor, WholePartition;
    var t := WithImage(s, image, p);
    forall k | 0 <= k < |t.images| ensures Recorded(run, t, k) {
      if k < |s.images| {
        assert Recorded(run, s, k);
      }
    }
    forall k | 0 <= k < |t.loaded| ensures PartitionFrom(run, t, k) {
      assert PartitionFrom(run, s, k);
    }
  }

  /** The result of the checks on the top-level image. */
  ghost function TopResult(run: Run, mem: Memory): SlotResult
    requires run.dev.Valid()
  {
    ImageCheck(run.dev, run.allow, mem, None, 0).ret
  }

  /** It is Ok exactly for a trusted image. */
  lemma TopTrusted(run: Run, s: Snapshot)
    requires Sourced(run, s) && s.images != []
    ensures TopResult(run, s.images[0].mem) == Ok <==> RootTrusted(run, s.images[0])
  {
    hide ReadFrom, Accepted, Metadata, PublicKey, HeaderOf, ImageCheck, PartitionFrom;
    assert Recorded(run, s, 0);
    CheckFacts(run.dev, run.allow, s.images[0].mem, None, 0);
    CheckCodes(run.dev, run.allow, s.images[0].mem, None, 0);
  }

  /** What loading an image with everything it leads to keeps. */
  ghost predicate LoadKept(run: Run, s: Snapshot, location: int, p: nat, r: Loaded)
    requires run.dev.Valid()
  {
    && r.s.Bounded() && Grows(run, s, r.s)
    && |r.s.images| >= |s.images| && (location != 0 ==> |r.s.images| <= |s.images| + 1)
    && (GoesOn(run.allow, r.ret) ==> |r.s.images| > |s.images|)
    && (GoesOn(run.allow, r.ret) && !VerificationDisabled(r.s.images[|s.images|].mem) && !CutShort(run.allow, r.outcomes) ==>
          RollbackRecorded(r.s.images[|s.images|].mem, location, s.rollbackIndexes, r.s.rollbackIndexes))
    && (location != 0 && GoesOn(run.allow, r.ret) ==> r.s.chainOf[|s.images|] == p)
    && (location != 0 && !run.allow && r.ret == Ok && Settled(run, s, |s.images|) ==> Settled(run, r.s, |r.s.images|))
    && (location == 0 && GoesOn(run.allow, r.ret) ==> Ends(run, r.s.images[0].mem, TopResult(run, r.s.images[0].mem), r))
  }

  lemma LoadKeeps(run: Run, s: Snapshot, location: int, nameMem: seq<byte>, nameLen: nat, expectedKey: Option<seq<byte>>, p: nat)
    requires run.dev.Valid() && s.Bounded() && nameLen <= |nameMem|
    requires Called(s, location, nameMem, nameLen, expectedKey, p)
    ensures LoadKept(run, s, location, p, Load(run, s, location, nameMem, nameLen, expectedKey, p))
    decreases Rank(location, nameMem), 4, 0
  {
    hide LoadKept, Examine, ChainCall, ImageRead, ReadFrom;
    var lookForFooter := !IsVbmetaName(nameMem);
    var read := ImageRead(run, nameMem[..nameLen], lookForFooter);
    if location == 0 && read.io == NoSuchPartition && !lookForFooter {
      LoadKeeps(run, s, 0, Literal("boot"), 4, None, p);
    } else if read.ret != Ok {
      NothingRead(run, s, location, p, read.ret);
    } else {
      ReadsVbmeta(run, nameMem[..nameLen], lookForFooter);
      ExamineKeeps(run, s, location, nameMem, nameLen, expectedKey, p, Memory(read.bytes, run.dev.behind));
    }
  }

  lemma NothingRead(run: Run, s: Snapshot, location: int, p: nat, ret: SlotResult)
    requires run.dev.Valid() && s.Bounded() && !GoesOn(run.allow, ret)
    ensures LoadKept(run, s, location, p, Loaded(ret, s, []))
  {
    GrowsRefl(run, s);
  }

  lemma ExamineKeeps(run: Run, s: Snapshot, location: int, nameMem: seq<byte>, nameLen: nat, expectedKey: Option<seq<byte>>, p: nat,
                     mem: Memory)
    requires run.dev.Valid() && s.Bounded() && nameLen <= |nameMem|
    requires Called(s, location, nameMem, nameLen, expectedKey, p)
    requires ReadFrom(run, nameMem[..nameLen], !IsVbmetaName(nameMem), mem.bytes) && |mem.bytes| <= VBMETA_MAX_SIZE
    ensures LoadKept(run, s, location, p, Examine(run, s, location, nameMem, expectedKey, p, mem))
    decreases if location == 0 then 2 else 1, 3, 0
  {
    hide AfterKept, Called, HeaderOf, ImageCheck, CString, ReadFrom, Kept, LoadKept, After, VerifyResultOf, BigEndian;
    var check := ImageCheck(run.dev, run.allow, mem, expectedKey, location % B32);
    CheckFacts(run.dev, run.allow, mem, expectedKey, location % B32);
    CallFacts(s, location, nameMem, nameLen, expectedKey, p);
    if !check.keep {
      NothingRead(run, s, location, p, check.ret);
    } else if |s.images| == MAX_VBMETA_IMAGES {
      NothingRead(run, s, location, p, ErrorOom);
    } else {
      var image := ImageOf(nameMem, mem, check.result);
      var t := WithImage(s, image, p);
      ImageEnters(run, s, location, nameMem, nameLen, expectedKey, p, mem);
      if location == 0 {
        TopCheck(run, mem);
      }
      hide TopResult, ImageOf;
      AfterKeeps(run, t, location, mem, |s.images|, check.ret);
      AfterRecorded(run, s, t, location, mem, image, p, check.ret, After(run, t, location, mem, |s.images|, check.ret));
    }
  }

  lemma TopCheck(run: Run, mem: Memory)
    requires run.dev.Valid()
    ensures ImageCheck(run.dev, run.allow, mem, None, 0 % B32).ret == TopResult(run, mem)
  {
    hide ImageCheck;
  }

  /** An image that is kept, and for which there is room, can be recorded. */
  lemma ImageEnters(run: Run, s: Snapshot, location: int, nameMem: seq<byte>, nameLen: nat, expectedKey: Option<seq<byte>>, p: nat,
                    mem: Memory)
    requires run.dev.Valid() && s.Bounded() && nameLen <= |nameMem| && |s.images| < MAX_VBMETA_IMAGES
    requires Called(s, location, nameMem, nameLen, expectedKey, p)
    requires ReadFrom(run, nameMem[..nameLen], !IsVbmetaName(nameMem), mem.bytes) && |mem.bytes| <= VBMETA_MAX_SIZE
    requires ImageCheck(run.dev, run.allow, mem, expectedKey, location % B32).keep
    ensures |mem.bytes| >= HEADER_SIZE
    ensures var t := WithImage(s, ImageOf(nameMem, mem, ImageCheck(run.dev, run.allow, mem, expectedKey, location % B32).result), p);
            && t.Bounded() && Grows(run, s, t) && t.images[|s.images|].mem == mem && |t.images| == |s.images| + 1
            && (!run.allow && Settled(run, s, |s.images|) ==> Settled(run, t, |s.images|))
  {
    hide Called, HeaderOf, ImageCheck, ImageOf, CString, ReadFrom, Kept, VerifyResultOf, BigEndian, Snapshot.Bounded, Grows, Settled,
         ChainCall, ChainName, IsVbmetaName, VbmetaImage.Sized;
    var check := ImageCheck(run.dev, run.allow, mem, expectedKey, location % B32);
    CheckFacts(run.dev, run.allow, mem, expectedKey, location % B32);
    CallFacts(s, location, nameMem, nameLen, expectedKey, p);
    ImageFacts(run, nameMem, mem, expectedKey, location % B32);
    ImageRecorded(run, s, ImageOf(nameMem, mem, check.result), p, location, nameMem[..nameLen], !IsVbmetaName(nameMem), expectedKey);
  }

  /** What is recorded of an image that was checked. */
  lemma ImageFacts(run: Run, nameMem: seq<byte>, mem: Memory, expectedKey: Option<seq<byte>>, location: nat)
    requires run.dev.Valid() && |mem.bytes| <= VBMETA_MAX_SIZE && ImageCheck(run.dev, run.allow, mem, expectedKey, location).keep
    ensures |mem.bytes| >= HEADER_SIZE && ImageOf(nameMem, mem, ImageCheck(run.dev, run.allow, mem, expectedKey, location).result).Sized()
    ensures var image := ImageOf(nameMem, mem, ImageCheck(run.dev, run.allow, mem, expectedKey, location).result);
            && image.mem == mem && image.name == CString(nameMem)
            && image.result == VerifyResultOf(run.dev.hashes, mem) == ImageCheck(run.dev, run.allow, mem, expectedKey, location).result
            && image.size == 256 + BigEndian(mem.bytes[12..20]) + BigEndian(mem.bytes[20..28])
  {
    hide ImageCheck, CString, VerifyResultOf, BigEndian;
    CheckFacts(run.dev, run.allow, mem, expectedKey, location);
    CheckCodes(run.dev, run.allow, mem, expectedKey, location);
  }

  /** What the calls are made with. */
  ghost predicate Called(s: Snapshot, location: int, nameMem: seq<byte>, nameLen: nat, expectedKey: Option<seq<byte>>, p: nat)
    requires nameLen <= |nameMem|
  {
    if location == 0 then MainCall(s, nameMem, nameLen, expectedKey)
    else
      && ChainCall(s, location, nameMem[..nameLen], !IsVbmetaName(nameMem), expectedKey, p)
      && CString(nameMem) == ChainName(s, p)
  }

  lemma CallFacts(s: Snapshot, location: int, nameMem: seq<byte>, nameLen: nat, expectedKey: Option<seq<byte>>, p: nat)
    requires nameLen <= |nameMem| && Called(s, location, nameMem, nameLen, expectedKey, p)
    ensures location != 0 ==>
              && expectedKey.Some? && ChainCall(s, location, nameMem[..nameLen], !IsVbmetaName(nameMem), expectedKey, p)
              && CString(nameMem) == ChainName(s, p)
    ensures location == 0 ==> && s.images == [] && s.loaded == [] && expectedKey == None && nameMem[..nameLen] == CString(nameMem)
                              && (CString(nameMem) == Ascii("vbmeta") || CString(nameMem) == Ascii("boot"))
                              && (IsVbmetaName(nameMem) <==> CString(nameMem) == Ascii("vbmeta"))
  {
    hide CString, ChainName, AllDescriptors, ParseChain;
    LiteralNames();
    BootIsNot();
  }

  lemma BootIsNot()
    ensures Ascii("boot") != Ascii("vbmeta") && !IsVbmetaName(Literal("boot")) && IsVbmetaName(Literal("vbmeta"))
  {
    assert Literal("vbmeta")[..6] == Ascii("vbmeta");
  }

  lemma AfterRecorded(run: Run, s: Snapshot, t: Snapshot, location: int, mem: Memory, image: VbmetaImage, p: nat,
                      ret0: SlotResult, r: Loaded)
    requires run.dev.Valid() && s.Bounded() && t == WithImage(s, image, p) && image.mem == mem && Grows(run, s, t)
    requires !run.allow && Settled(run, s, |s.images|) ==> Settled(run, t, |s.images|)
    requires location == 0 ==> s.images == []
    requires AfterKept(run, t, location, mem, |s.images|, ret0, r) && (location == 0 ==> ret0 == TopResult(run, mem))
    ensures LoadKept(run, s, location, p, r)
  {
    hide HeaderOf, VbmetaImage.Sized, Extends, Logged, Trusted, Sourced, Settled, Ends, RollbackRecorded, TopResult;
    GrowsTrans(run, s, t, r.s);
    ExtendsImage(t, r.s, |s.images|);
    ExtendsOrigin(t, r.s, |s.images|);
  }

  lemma ExtendsOrigin(s: Snapshot, t: Snapshot, k: nat)
    requires Extends(s, t) && k < |s.chainOf|
    ensures k < |t.chainOf| && t.chainOf[k] == s.chainOf[k]
  {
  }
}
