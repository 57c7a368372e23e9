/** Any number of boots, one call of avb_slot_verify each, on one persistent store: what the
    store remembers, when the error mode is eio, and which digest a partition is held to. */
module Boots {
  import opened Words
  import opened Vbmeta
  import opened Descriptors
  import opened Persist
  import opened Slot
  import opened SlotRun
  import opened SlotSafety
  import opened SlotVerify

  /** What may differ from boot to boot. */
  datatype Input = Input(dev: Device, c: Conditions, requested: seq<Name>, suffix: Name, allow: bool,
                         corruption: bool, mode: ErrorMode)

  /** What came of a boot: the run, its result, the slot data if any was returned, with its error
      mode; the store it left, and how many requests the store had seen before and after; and
      what the boot contributes to the managed mode, if that was resolved. */
  datatype Report = Report(run: Run, ret: SlotResult, data: Option<Snapshot>, outcomes: seq<Outcome>, mode: ErrorMode,
                           store: Store, start: nat, end: nat, resolved: Option<Boot>)

  ghost function AsSeq(b: Option<Boot>): seq<Boot>
  {
    match b case None => [] case Some(x) => [x]
  }

  /** The boots whose managed mode was resolved. */
  ghost function ResolvedBoots(reports: seq<Report>): seq<Boot>
  {
    if reports == [] then [] else ResolvedBoots(reports[..|reports| - 1]) + AsSeq(reports[|reports| - 1].resolved)
  }

  /** The error mode that came back with the data. */
  function ModeReported(r: Report): Option<ErrorMode>
  {
    if r.data.Some? then Some(r.mode) else None
  }

  /** The call was made with these arguments. */
  ghost predicate RunOf(b: Input, run: Run)
  {
    run.dev == b.dev && run.vals.c == b.c && run.requested == b.requested && run.suffix == b.suffix && run.allow == b.allow
  }

  /** The report of the boot that ends the log, whose first request is at index r.start. */
  ghost predicate Reported(first: Store, log: seq<Event>, b: Input, r: Report)
    requires b.dev.Valid()
  {
    && RunOf(b, r.run) && r.start <= r.end == |log|
    && r.store == StoreAfter(first, log)
    && Resolved(first, log) == Resolved(first, log[..r.start]) + AsSeq(r.resolved)
    && (b.mode != ManagedRestartAndEio ==> r.resolved == None)
    && (!b.allow ==> (r.data.Some? <==> r.ret == Ok))
    && (r.data.Some? ==> DataReported(b, r))
  }

  /** The data returned, and its error mode. */
  ghost predicate DataReported(b: Input, r: Report)
    requires b.dev.Valid() && RunOf(b, r.run) && r.data.Some?
  {
    var s := r.data.value;
    && s.store == r.store && s.images != [] && DataKept(r.run, s, r.ret, r.outcomes)
    && if VerificationDisabled(s.images[0].mem) then r.mode == Restart
       else if b.mode != ManagedRestartAndEio then r.mode == b.mode
       else
         && r.resolved == Some(Boot(b.corruption, VbmetaDigestOf(b.dev, s.images)))
         && r.mode == if MANAGED_VERITY_MODE in r.store then Eio else Restart
  }

  /** The reports account for the whole log, boot by boot. */
  ghost predicate History(first: Store, log: seq<Event>, boots: seq<Input>, reports: seq<Report>)
    decreases |reports|
  {
    && |reports| == |boots| && AllValid(log)
    && if reports == [] then log == []
       else
         var n := |reports| - 1;
         && boots[n].dev.Valid() && Reported(first, log, boots[n], reports[n])
         && History(first, log[..reports[n].start], boots[..n], reports[..n])
  }

  /** Where boot i - 1 left the log. */
  function EndOf(reports: seq<Report>, i: nat): nat
    requires i <= |reports|
  {
    if i == 0 then 0 else reports[i - 1].end
  }

  /** One boot less. */
  lemma HistoryInit(first: Store, log: seq<Event>, boots: seq<Input>, reports: seq<Report>)
    requires History(first, log, boots, reports)
    ensures |boots| == |reports| && EndOf(reports, |reports|) == |log|
    ensures reports != [] ==>
              var n := |reports| - 1;
              reports[n].start <= |log| && History(first, log[..reports[n].start], boots[..n], reports[..n])
  {
    hide DataReported, Resolved, StoreAfter;
  }

  /** What happened up to some boot is a history, too. */
  lemma {:induction false} HistoryPrefix(first: Store, log: seq<Event>, boots: seq<Input>, reports: seq<Report>, i: nat)
    requires History(first, log, boots, reports) && i <= |reports|
    ensures i <= |boots| && EndOf(reports, i) <= |log|
    ensures History(first, log[..EndOf(reports, i)], boots[..i], reports[..i])
    decreases |reports|
  {
    hide History;
    HistoryInit(first, log, boots, reports);
    var n := |reports| - 1;
    if i == |reports| {
      assert log[..|log|] == log && boots[..i] == boots && reports[..i] == reports;
    } else {
      var s := reports[n].start;
      HistoryPrefix(first, log[..s], boots[..n], reports[..n], i);
      assert boots[..n][..i] == boots[..i] && reports[..n][..i] == reports[..i];
      assert EndOf(reports[..n], i) == EndOf(reports, i);
      assert log[..s][..EndOf(reports, i)] == log[..EndOf(reports, i)];
    }
  }

  /** The report of boot i. */
  lemma ReportAt(first: Store, log: seq<Event>, boots: seq<Input>, reports: seq<Report>, i: nat)
    requires History(first, log, boots, reports) && i < |reports|
    ensures |reports| == |boots| && boots[i].dev.Valid() && reports[i].end <= |log| && AllValid(log[..reports[i].end])
    ensures Reported(first, log[..reports[i].end], boots[i], reports[i])
    ensures History(first, log[..reports[i].end], boots[..i + 1], reports[..i + 1])
  {
    hide Reported;
    HistoryPrefix(first, log, boots, reports, i + 1);
    assert boots[..i + 1][i] == boots[i] && reports[..i + 1][i] == reports[i];
  }

  // ------------------------------------------------------------- one more boot

  /** Requests other than about the error mode resolve nothing. */
  lemma {:induction false} ResolvedQuiet(first: Store, log: seq<Event>, events: seq<Event>)
    requires forall i :: 0 <= i < |events| ==> !events[i].ManageMode?
    ensures Resolved(first, log + events) == Resolved(first, log)
  {
    if events == [] {
      assert log + events == log;
    } else {
      var n := |events| - 1;
      assert (log + events)[..|log| + n] == log + events[..n] && (log + events)[|log| + n] == events[n];
      ResolvedQuiet(first, log, events[..n]);
    }
  }

  /** What the events of one call resolve. */
  ghost function ResolvedBy(store: Store, events: seq<Event>): Option<Boot>
  {
    if events == [] then None
    else
      var n, e := |events| - 1, events[|events| - 1];
      if e.ManageMode? && ModeResolved(StoreAfter(store, events[..n]), e.c, e.corruption, e.vbmetaDigest)
      then Some(Boot(e.corruption, e.vbmetaDigest)) else None
  }

  lemma ResolvedCall(first: Store, log: seq<Event>, events: seq<Event>)
    requires forall i :: 0 <= i < |events| - 1 ==> !events[i].ManageMode?
    ensures Resolved(first, log + events) == Resolved(first, log) + AsSeq(ResolvedBy(StoreAfter(first, log), events))
  {
    hide ModeResolved, Resolved, StoreAfter;
    if events == [] {
      assert log + events == log;
    } else {
      var n := |events| - 1;
      ResolvedQuiet(first, log, events[..n]);
      assert log + events == (log + events[..n]) + [events[n]];
      ResolvedNext(first, log + events[..n], events[n]);
      StoreAfterConcat(first, log, events[..n]);
    }
  }

  lemma ResolvedNext(first: Store, log: seq<Event>, e: Event)
    ensures Resolved(first, log + [e]) == Resolved(first, log) +
              (if e.ManageMode? && ModeResolved(StoreAfter(first, log), e.c, e.corruption, e.vbmetaDigest)
               then [Boot(e.corruption, e.vbmetaDigest)] else [])
  {
    hide ModeResolved, StoreAfter;
    assert (log + [e])[..|log|] == log;
  }

  /** The report of a call that is logged behind the others. */
  lemma NextReported(first: Store, log: seq<Event>, events: seq<Event>, b: Input, r: Report)
    requires b.dev.Valid() && RunOf(b, r.run) && r.start == |log| && r.end == |log + events|
    requires r.resolved == ResolvedBy(StoreAfter(first, log), events)
    requires CallLogged(b.mode == ManagedRestartAndEio, StoreAfter(first, log), [], r.store, events)
    requires !b.allow ==> (r.data.Some? <==> r.ret == Ok)
    requires r.data.Some? ==> DataReported(b, r)
    ensures Reported(first, log + events, b, r)
  {
    hide DataReported, Resolved, ModeResolved, StoreAfter;
    assert events[0..] == events;
    assert (log + events)[..|log|] == log;
    StoreAfterConcat(first, log, events);
    ResolvedCall(first, log, events);
  }

  lemma NextHistory(first: Store, log: seq<Event>, boots: seq<Input>, reports: seq<Report>, events: seq<Event>, b: Input, r: Report)
    requires History(first, log, boots, reports) && b.dev.Valid() && AllValid(events) && r.start == |log|
    requires Reported(first, log + events, b, r)
    ensures History(first, log + events, boots + [b], reports + [r])
  {
    hide Reported;
    assert (log + events)[..|log|] == log;
    assert (boots + [b])[..|boots|] == boots && (reports + [r])[..|reports|] == reports;
  }

  /** What the last request says about the mode. */
  lemma DataIsReported(b: Input, r: Report, store: Store, s: Snapshot)
    requires b.dev.Valid() && RunOf(b, r.run) && r.data == Some(s) && s.store == r.store && DataKept(r.run, s, r.ret, r.outcomes)
    requires s.images != [] && ModeKept(r.run, store, [], s, b.corruption, b.mode, r.mode)
    requires r.resolved == ResolvedBy(store, s.log)
    ensures DataReported(b, r)
  {
    hide DataKept, ModeResolved, VbmetaDigestOf, StoreAfter;
    if !VerificationDisabled(s.images[0].mem) && b.mode == ManagedRestartAndEio {
      assert s.log[0..|s.log| - 1] == s.log[..|s.log| - 1];
    }
  }

  /** Boots one after the other, each with the store the one before left. */
  method RunBoots(first: Store, boots: seq<Input>)
    returns (rets: seq<SlotResult>, modes: seq<Option<ErrorMode>>, store: Store, ghost log: seq<Event>, ghost reports: seq<Report>)
    requires forall i :: 0 <= i < |boots| ==> boots[i].dev.Valid()
    ensures History(first, log, boots, reports) && store == StoreAfter(first, log) && |rets| == |modes| == |boots|
    ensures forall i :: 0 <= i < |boots| ==> rets[i] == reports[i].ret && modes[i] == ModeReported(reports[i])
  {
    hide History, DataKept, CallLogged, ModeKept, Load, Reported, RunOf, ModeReported, StoreAfter;
    rets, modes, store, log, reports := [], [], first, [], [];
    var n := 0;
    NoHistory(first);
    NothingAfter(first);
    assert boots[..0] == [];
    while n < |boots|
      invariant 0 <= n <= |boots| && |rets| == |modes| == |reports| == n
      invariant History(first, log, boots[..n], reports) && store == StoreAfter(first, log)
      invariant forall i :: 0 <= i < n ==> rets[i] == reports[i].ret && modes[i] == ModeReported(reports[i])
    {
      var ret, mode, after;
      ghost var events, report;
      ret, mode, after, events, report := OneBoot(first, log, store, boots[n]);
      NextHistory(first, log, boots[..n], reports, events, boots[n], report);
      assert boots[..n + 1] == boots[..n] + [boots[n]];
      rets, modes, store := rets + [ret], modes + [mode], after;
      log, reports := log + events, reports + [report];
      n := n + 1;
    }
    assert boots[..n] == boots;
  }

  lemma NothingAfter(first: Store)
    ensures StoreAfter(first, []) == first
  {
  }

  lemma NoHistory(first: Store)
    ensures History(first, [], [], [])
  {
  }

  method OneBoot(ghost first: Store, ghost log: seq<Event>, store: Store, b: Input)
    returns (ret: SlotResult, mode: Option<ErrorMode>, after: Store, ghost events: seq<Event>, ghost report: Report)
    requires b.dev.Valid() && store == StoreAfter(first, log)
    ensures AllValid(events) && report.start == |log| && Reported(first, log + events, b, report)
    ensures report.ret == ret && mode == ModeReported(report)
    ensures after == StoreAfter(first, log + events)
  {
    hide DataKept, OkMeans, CallLogged, ModeKept, Loading, ResultOf, Reported, DataReported, Finishing, HeaderOf, ResolvedBy, AllValid;
    var vals := new Values(b.c, store);
    var run := Run(b.dev, vals, b.requested, b.suffix, b.allow);
    var data;
    ghost var outcomes;
    ret, data, outcomes := AvbSlotVerify(run, b.corruption, b.mode);
    after, events := vals.store, vals.log;
    mode := if data != null then Some(data.mode) else None;
    report := Report(run, ret, if data != null then Some(Snap(run, data)) else None, outcomes,
                     if data != null then data.mode else Restart, after, |log|, |log + events|, ResolvedBy(store, events));
    if data != null {
      DataIsReported(b, report, store, Snap(run, data));
    }
    NextReported(first, log, events, b, report);
    ReportedStore(first, log + events, b, report);
    CallValid(b.mode == ManagedRestartAndEio, store, after, events);
  }

  lemma ReportedStore(first: Store, log: seq<Event>, b: Input, r: Report)
    requires b.dev.Valid() && Reported(first, log, b, r)
    ensures r.store == StoreAfter(first, log)
  {
  }

  lemma CallValid(managed: bool, store: Store, after: Store, events: seq<Event>)
    requires CallLogged(managed, store, [], after, events)
    ensures AllValid(events)
  {
    assert events[0..] == events;
  }

  // --------------------------------------------------- theorems over all boots

  /** The resolved boots, as the log has them. */
  lemma {:induction false} ResolvedIs(first: Store, log: seq<Event>, boots: seq<Input>, reports: seq<Report>)
    requires History(first, log, boots, reports)
    ensures Resolved(first, log) == ResolvedBoots(reports)
    decreases |reports|
  {
    hide DataReported, Resolved, StoreAfter;
    if reports == [] {
      NothingResolved(first);
    } else {
      var n := |reports| - 1;
      ResolvedIs(first, log[..reports[n].start], boots[..n], reports[..n]);
    }
  }

  lemma NothingResolved(first: Store)
    ensures Resolved(first, []) == []
  {
  }

  /** Over any boots from a store without a remembered corruption: a boot that returns data in the
      managed mode is in eio mode if and only if some boot so far was flagged as a restart caused
      by corruption, and every boot since the last flagged one had the same vbmeta digest. */
  lemma EioOverBoots(first: Store, log: seq<Event>, boots: seq<Input>, reports: seq<Report>, i: nat)
    requires History(first, log, boots, reports) && MANAGED_VERITY_MODE !in first && i < |reports|
    requires boots[i].dev.Valid() && boots[i].mode == ManagedRestartAndEio && reports[i].data.Some?
    requires var s := reports[i].data.value; s.images != [] && !VerificationDisabled(s.images[0].mem)
    ensures reports[i].mode == Eio <==> StaysInEio(ResolvedBoots(reports[..i + 1]))
    ensures reports[i].mode == Restart <==> !StaysInEio(ResolvedBoots(reports[..i + 1]))
    ensures var seen := ResolvedBoots(reports[..i + 1]);
            seen != [] && seen[|seen| - 1] == Boot(boots[i].corruption, VbmetaDigestOf(boots[i].dev, reports[i].data.value.images))
  {
    hide DataKept, StaysInEio, Resolved, History, StoreAfter;
    ReportAt(first, log, boots, reports, i);
    var r := reports[i];
    ResolvedIs(first, log[..r.end], boots[..i + 1], reports[..i + 1]);
    ModeStored(first, log[..r.end]);
    assert reports[..i + 1][..i] == reports[..i];
  }

  /** A persistent digest that one boot has left stays for all later ones. */
  lemma DigestOverBoots(first: Store, log: seq<Event>, boots: seq<Input>, reports: seq<Report>, i: nat, j: nat, part: Name)
    requires History(first, log, boots, reports) && i <= j < |reports| && DigestName(part) in reports[i].store
    ensures DigestName(part) in reports[j].store && reports[j].store[DigestName(part)] == reports[i].store[DigestName(part)]
  {
    hide DataReported, Resolved, History, StoreAfter;
    ReportAt(first, log, boots, reports, j);
    ReportAt(first, log[..reports[j].end], boots[..j + 1], reports[..j + 1], i);
    var upTo := log[..reports[j].end];
    assert upTo[..reports[j].end] == upTo;
    DigestStays(first, upTo, reports[i].end, reports[j].end, part);
  }

  /** The partition is one whose digest is kept on the device. */
  ghost predicate DeviceUnique(s: Snapshot, suffix: Name, k: nat, part: Name)
  {
    && k < |s.loaded| == |s.hashOf| && s.hashOf[k].0 < |s.images|
    && var d := ParseHash(s.images[s.hashOf[k].0].mem, s.hashOf[k].1);
       d.Some? && d.value.digest == [] && PartName(d.value, suffix) == part
  }

  /** The digest a loaded partition was verified with. */
  ghost function DigestUsed(dev: Device, s: Snapshot, k: nat): Option<seq<byte>>
    requires dev.Valid() && k < |s.loaded| == |s.hashOf| && s.hashOf[k].0 < |s.images|
  {
    match ParseHash(s.images[s.hashOf[k].0].mem, s.hashOf[k].1)
    case None => None
    case Some(d) => dev.DigestNamed(d.algorithm, d.salt + s.loaded[k].data)
  }

  /** Over any boots: whatever a strict boot that passed loaded for a device-unique partition has
      the digest of the first boot that could record one, or the one stored before. */
  lemma FirstDigestOverBoots(first: Store, log: seq<Event>, boots: seq<Input>, reports: seq<Report>, i: nat, k: nat, part: Name)
    requires History(first, log, boots, reports) && i < |reports| && boots[i].dev.Valid() && !boots[i].allow && reports[i].data.Some?
    requires var s := reports[i].data.value;
             && s.images != [] && !VerificationDisabled(s.images[0].mem) && AllPassed(reports[i].outcomes)
             && DeviceUnique(s, boots[i].suffix, k, part)
    ensures reports[i].end <= |log|
    ensures var digest := DigestUsed(boots[i].dev, reports[i].data.value, k);
            digest.Some? && FirstDigest(first, log[..reports[i].end], part) == digest
  {
    hide ParseHash, Resolved, AllPassed, FirstDigest, DataKept, Device.DigestNamed, History, PartitionVerified, Reported, AllDescriptors;
    ReportAt(first, log, boots, reports, i);
    var r := reports[i];
    var s := r.data.value;
    ReportedData(boots[i], r, first, log[..r.end]);
    PassedIsVerified(r.run, s, r.outcomes);
    assert PartitionVerified(r.run, s.store, s.images[s.hashOf[k].0].mem, s.hashOf[k].1, s.loaded[k]);
    VerifiedDigest(r.run, s.store, s.images[s.hashOf[k].0].mem, s.hashOf[k].1, s.loaded[k]);
    StoreHoldsFirstDigest(first, log[..r.end], part);
  }

  lemma ReportedData(b: Input, r: Report, first: Store, log: seq<Event>)
    requires b.dev.Valid() && Reported(first, log, b, r) && r.data.Some? && !b.allow
    ensures RunOf(b, r.run) && r.ret == Ok && r.data.value.store == r.store == StoreAfter(first, log)
    ensures r.data.value.images != [] && DataKept(r.run, r.data.value, r.ret, r.outcomes)
  {
    hide DataKept, Resolved, StoreAfter;
  }

  /** In strict mode all of the loaded data is hashed. */
  lemma VerifiedDigest(run: Run, store: Store, mem: Memory, p: nat, l: LoadedPartition)
    requires run.dev.Valid() && !run.allow && PartitionVerified(run, store, mem, p, l) && ParseHash(mem, p).value.digest == []
    ensures var d := ParseHash(mem, p).value;
            var digest := run.dev.DigestNamed(d.algorithm, d.salt + l.data);
            && digest.Some? && DigestName(PartName(d, run.suffix)) in store
            && digest.value == store[DigestName(PartName(d, run.suffix))]
  {
    hide ParseHash, AllDescriptors, LoadedFrom, Device.DigestNamed;
    assert l.data[..|l.data|] == l.data;
  }

  lemma PassedIsVerified(run: Run, s: Snapshot, outcomes: seq<Outcome>)
    requires DataKept(run, s, Ok, outcomes) && !run.allow && !VerificationDisabled(s.images[0].mem) && AllPassed(outcomes)
    ensures Verified(run, s)
  {
    hide AllDescriptors, OutcomeOf, Sourced, Trusted, Verified, Followed, VbmetaImage.Sized, TopResult, Result;
  }
}
