/** The persistent values of avb_slot_verify.c: digests that are initialized on first use, and
    the managed dm-verity error mode, over a device whose store obeys avb_ops.h. */
module Persist {
  import opened Words

  type Name = seq<byte>

  datatype IoResult = IoOk | IoOom | IoError | NoSuchPartition | RangeOutside | NoSuchValue
                    | InvalidValueSize | InsufficientSpace

  datatype SlotResult = Ok | ErrorOom | ErrorIo | ErrorVerification | ErrorRollbackIndex
                      | ErrorPublicKeyRejected | ErrorInvalidMetadata | ErrorUnsupportedVersion
                      | ErrorInvalidArgument

  function Ascii(s: string): (b: seq<byte>)
    ensures |b| == |s|
  {
    seq(|s|, i requires 0 <= i < |s| => s[i] as int % B8)
  }

  const DIGEST_PREFIX := Ascii("avb.persistent_digest.")
  const MANAGED_VERITY_MODE := Ascii("avb.managed_verity_mode")

  function DigestName(part: Name): Name
  {
    DIGEST_PREFIX + part
  }

  lemma DigestNamesDiffer(p: Name, q: Name)
    ensures DigestName(p) == DigestName(q) <==> p == q
    ensures DigestName(p) != MANAGED_VERITY_MODE
  {
    assert DigestName(p)[|DIGEST_PREFIX|..] == p && DigestName(q)[|DIGEST_PREFIX|..] == q;
    assert DigestName(p)[4] == 'p' as int % B8 && MANAGED_VERITY_MODE[4] == 'm' as int % B8;
  }

  /** A name whose value is empty counts as absent, so stored values are not empty. */
  type Store = m: map<Name, seq<byte>> | forall n :: n in m ==> m[n] != []

  /** What can differ from boot to boot apart from the store: whether persistent values are
      implemented, the lock state, and the failures the operations report. */
  datatype Conditions = Conditions(implemented: bool, unlocked: bool, lockFault: IoResult,
                                   readFault: Name -> Fault, writeFault: (Name, nat) -> IoResult)

  /** A failure of a read that says nothing about the value. */
  datatype Fault = NoFault | OomFault | IoFault

  /** The store after a successful write: an empty value removes the name. */
  function Written(store: Store, name: Name, value: seq<byte>): Store
  {
    if value == [] then store - {name} else store[name := value]
  }

  // ------------------------------------------------------ specification

  /** Does this check initialize the value? Only if there is none yet and the device is
      known to be locked. */
  predicate Initializes(store: Store, c: Conditions, part: Name, initial: Option<seq<byte>>)
  {
    && c.implemented && c.readFault(DigestName(part)) == NoFault && DigestName(part) !in store
    && initial.Some? && c.lockFault == IoOk && !c.unlocked
    && c.writeFault(DigestName(part), |initial.value|) == IoOk
  }

  function StoreAfterRead(store: Store, c: Conditions, part: Name, initial: Option<seq<byte>>): Store
  {
    if Initializes(store, c, part, initial) then Written(store, DigestName(part), initial.value) else store
  }

  /** Why a missing value was not initialized. */
  function NotInitialized(c: Conditions, part: Name, initial: Option<seq<byte>>): SlotResult
  {
    if initial.None? then ErrorVerification
    else if c.lockFault != IoOk then (if c.lockFault == IoOom then ErrorOom else ErrorIo)
    else if c.unlocked then ErrorVerification
    else if c.writeFault(DigestName(part), |initial.value|) == IoOom then ErrorOom
    else ErrorIo
  }

  /** The result of reading a digest, in terms of the store it leaves. */
  function ReadResult(after: Store, c: Conditions, part: Name, size: nat, initial: Option<seq<byte>>): SlotResult
  {
    if !c.implemented then ErrorInvalidMetadata
    else if c.readFault(DigestName(part)) != NoFault then
      (if c.readFault(DigestName(part)) == OomFault then ErrorOom else ErrorIo)
    else if DigestName(part) !in after then NotInitialized(c, part, initial)
    else if |after[DigestName(part)]| == size then Ok
    else ErrorInvalidMetadata
  }

  /** What one boot asks of the persistent store. */
  datatype Event =
    | DigestCheck(c: Conditions, part: Name, digest: seq<byte>)
    | DigestLookup(c: Conditions, part: Name, size: nat)
    | ManageMode(c: Conditions, corruption: bool, vbmetaDigest: seq<byte>)
  {
    /** A digest is not empty, the vbmeta digest is SHA-256. */
    predicate Valid()
    {
      (DigestCheck? ==> digest != []) && (ManageMode? ==> |vbmetaDigest| == 32)
    }

    /** The store the event leaves. */
    function After(store: Store): Store
    {
      match this
      case DigestCheck(c, part, digest) => StoreAfterRead(store, c, part, Some(digest))
      case DigestLookup(c, part, size) => store
      case ManageMode(c, corruption, digest) => ModeStore(store, c, corruption, digest)
    }
  }

  datatype ErrorMode = Restart | RestartAndInvalidate | Eio | Logging | ManagedRestartAndEio

  function ModeStore(store: Store, c: Conditions, corruption: bool, digest: seq<byte>): Store
  {
    if corruption then
      if c.writeFault(MANAGED_VERITY_MODE, 32) == IoOk then Written(store, MANAGED_VERITY_MODE, digest) else store
    else if c.readFault(MANAGED_VERITY_MODE) != NoFault || MANAGED_VERITY_MODE !in store then store
    else if |store[MANAGED_VERITY_MODE]| != 32 || store[MANAGED_VERITY_MODE] == digest then store
    else if c.writeFault(MANAGED_VERITY_MODE, 0) == IoOk then Written(store, MANAGED_VERITY_MODE, []) else store
  }

  /** Is the mode of this boot resolved, that is, do the operations it needs succeed? */
  predicate ModeResolved(store: Store, c: Conditions, corruption: bool, digest: seq<byte>)
  {
    if corruption then c.writeFault(MANAGED_VERITY_MODE, 32) == IoOk
    else
      && c.readFault(MANAGED_VERITY_MODE) == NoFault
      && (MANAGED_VERITY_MODE in store ==>
            && |store[MANAGED_VERITY_MODE]| == 32
            && (store[MANAGED_VERITY_MODE] != digest ==> c.writeFault(MANAGED_VERITY_MODE, 0) == IoOk))
  }

  /** What the operations report. */
  function ModeIo(store: Store, c: Conditions, corruption: bool, digest: seq<byte>): IoResult
  {
    if corruption then c.writeFault(MANAGED_VERITY_MODE, 32)
    else if c.readFault(MANAGED_VERITY_MODE) == OomFault then IoOom
    else if c.readFault(MANAGED_VERITY_MODE) == IoFault then IoError
    else if MANAGED_VERITY_MODE !in store then IoOk
    else if |store[MANAGED_VERITY_MODE]| > 32 then InsufficientSpace
    else if |store[MANAGED_VERITY_MODE]| != 32 then IoError
    else if store[MANAGED_VERITY_MODE] == digest then IoOk
    else c.writeFault(MANAGED_VERITY_MODE, 0)
  }

  /** The outcome of comparing a digest with the persistent one. */
  function CheckResult(after: Store, c: Conditions, part: Name, digest: seq<byte>): SlotResult
  {
    var read := ReadResult(after, c, part, |digest|, Some(digest));
    if read == Ok && after[DigestName(part)] != digest then ErrorVerification else read
  }

  // ------------------------------------------------------------- methods

  /** The persistent store during one boot. The ghost log remembers what was asked of it. */
  class Values {
    const c: Conditions
    var store: Store
    ghost var log: seq<Event>

    constructor (c: Conditions, store: Store)
      ensures this.c == c && this.store == store && log == []
    {
      this.c, this.store, log := c, store, [];
    }

    /** read_persistent_value as avb_ops.h describes it: number of bytes and the bytes. */
    method Read(name: Name, size: nat) returns (io: IoResult, out: seq<byte>)
      ensures c.readFault(name) == OomFault ==> io == IoOom
      ensures c.readFault(name) == IoFault ==> io == IoError
      ensures c.readFault(name) == NoFault ==>
                io == (if name !in store then NoSuchValue else if |store[name]| > size then InsufficientSpace else IoOk)
      ensures io == IoOk ==> out == store[name]
    {
      if c.readFault(name) != NoFault {
        return if c.readFault(name) == OomFault then IoOom else IoError, [];
      }
      if name !in store {
        return NoSuchValue, [];
      }
      if |store[name]| > size {
        return InsufficientSpace, [];
      }
      return IoOk, store[name];
    }

    method Write(name: Name, value: seq<byte>) returns (io: IoResult)
      modifies this`store
      ensures io == c.writeFault(name, |value|)
      ensures store == if io == IoOk then Written(old(store), name, value) else old(store)
    {
      io := c.writeFault(name, |value|);
      if io == IoOk {
        store := Written(store, name, value);
      }
    }

    /** read_persistent_digest. At most one nested initialization, which reads back without
        an initial value. */
    method ReadPersistentDigest(part: Name, size: nat, initial: Option<seq<byte>>)
      returns (ret: SlotResult, out: seq<byte>)
      requires initial.Some? ==> |initial.value| == size > 0
      modifies this`store
      ensures store == StoreAfterRead(old(store), c, part, initial)
      ensures ret == ReadResult(store, c, part, size, initial)
      ensures ret == Ok ==> out == store[DigestName(part)]
      decreases if initial.Some? then 2 else 0
    {
      if !c.implemented {
        return ErrorInvalidMetadata, [];
      }
      var name := DigestName(part);
      var io, stored := Read(name, size);
      if io == NoSuchValue && initial.Some? {
        ret, out := InitializePersistentDigest(part, name, initial.value);
        return;
      }
      out := stored;
      if io == IoOom {
        ret := ErrorOom;
      } else if io == NoSuchValue {
        ret := ErrorVerification;
      } else if io == InvalidValueSize || io == InsufficientSpace {
        ret := ErrorInvalidMetadata;
      } else if io != IoOk {
        ret := ErrorIo;
      } else if size != |stored| {
        ret := ErrorInvalidMetadata;
      } else {
        ret := Ok;
      }
    }

    method InitializePersistentDigest(part: Name, name: Name, initial: seq<byte>)
      returns (ret: SlotResult, out: seq<byte>)
      requires name == DigestName(part) && |initial| > 0
      requires c.implemented && c.readFault(name) == NoFault && name !in store
      modifies this`store
      ensures store == StoreAfterRead(old(store), c, part, Some(initial))
      ensures ret == ReadResult(store, c, part, |initial|, Some(initial))
      ensures ret == Ok ==> out == store[DigestName(part)]
      decreases 1
    {
      if c.lockFault == IoOom {
        return ErrorOom, [];
      } else if c.lockFault != IoOk {
        return ErrorIo, [];
      }
      if c.unlocked {
        return ErrorVerification, [];
      }
      var io := Write(name, initial);
      if io == IoOom {
        return ErrorOom, [];
      } else if io != IoOk {
        return ErrorIo, [];
      }
      ret, out := ReadPersistentDigest(part, |initial|, None);
    }

    /** The persistent-digest branch of load_and_verify_hash_partition. */
    method CheckPersistentDigest(part: Name, digest: seq<byte>) returns (ret: SlotResult)
      requires |digest| > 0
      modifies this
      ensures store == StoreAfterRead(old(store), c, part, Some(digest))
      ensures ret == CheckResult(store, c, part, digest)
      ensures log == old(log) + [DigestCheck(c, part, digest)] && store == DigestCheck(c, part, digest).After(old(store))
    {
      log := log + [DigestCheck(c, part, digest)];
      var read, expected := ReadPersistentDigest(part, |digest|, Some(digest));
      if read != Ok {
        return read;
      }
      return if digest == expected then Ok else ErrorVerification;
    }

    /** The lookup of a root digest, which never initializes it. */
    method LookupPersistentDigest(part: Name, size: nat) returns (ret: SlotResult, out: seq<byte>)
      modifies this
      ensures store == old(store) && log == old(log) + [DigestLookup(c, part, size)]
      ensures ret == ReadResult(store, c, part, size, None)
      ensures ret == Ok ==> out == store[DigestName(part)]
    {
      log := log + [DigestLookup(c, part, size)];
      ret, out := ReadPersistentDigest(part, size, None);
    }

    /** avb_manage_hashtree_error_mode. */
    method ManageHashtreeErrorMode(corruption: bool, vbmetaDigest: seq<byte>)
      returns (io: IoResult, mode: ErrorMode)
      requires |vbmetaDigest| == 32
      modifies this
      ensures store == ModeStore(old(store), c, corruption, vbmetaDigest)
      ensures io == IoOk <==> ModeResolved(old(store), c, corruption, vbmetaDigest)
      ensures io == ModeIo(old(store), c, corruption, vbmetaDigest)
      ensures io == IoOk ==> mode == if MANAGED_VERITY_MODE in store then Eio else Restart
      ensures log == old(log) + [ManageMode(c, corruption, vbmetaDigest)]
    {
      log := log + [ManageMode(c, corruption, vbmetaDigest)];
      mode := Restart;
      if corruption {
        io := Write(MANAGED_VERITY_MODE, vbmetaDigest);
        if io == IoOk {
          mode := Eio;
        }
        return;
      }
      var stored;
      io, stored := Read(MANAGED_VERITY_MODE, 32);
      if io == NoSuchValue || (io == IoOk && |stored| == 0) {
        return IoOk, Restart;
      } else if io != IoOk {
        return;
      }
      if |stored| != 32 {
        return IoError, Restart;
      }
      if vbmetaDigest == stored {
        return IoOk, Eio;
      }
      io := Write(MANAGED_VERITY_MODE, []);
    }
  }

  // ---------------------------------------------------------- whole runs

  /** The store after a sequence of events over any number of boots. */
  function StoreAfter(store: Store, events: seq<Event>): Store
  {
    if events == [] then store else events[|events| - 1].After(StoreAfter(store, events[..|events| - 1]))
  }

  lemma {:induction false} StoreAfterConcat(store: Store, a: seq<Event>, b: seq<Event>)
    ensures StoreAfter(store, a + b) == StoreAfter(StoreAfter(store, a), b)
  {
    hide Event.After;
    if b == [] {
      assert a + b == a;
    } else {
      var n := |b| - 1;
      assert (a + b)[..|a + b| - 1] == a + b[..n];
      StoreAfterConcat(store, a, b[..n]);
    }
  }

  predicate AllValid(events: seq<Event>)
  {
    forall i :: 0 <= i < |events| ==> events[i].Valid()
  }

  /** Event i writes the persistent digest of a partition. */
  predicate WritesDigest(store: Store, events: seq<Event>, i: nat, part: Name)
    requires i < |events|
  {
    && events[i].DigestCheck? && events[i].part == part
    && Initializes(StoreAfter(store, events[..i]), events[i].c, part, Some(events[i].digest))
  }

  lemma StoreAfterNext(store: Store, events: seq<Event>, i: nat)
    requires i < |events|
    ensures StoreAfter(store, events[..i + 1]) == events[i].After(StoreAfter(store, events[..i]))
  {
    assert events[..i + 1][..i] == events[..i];
  }

  /** One event: a digest that is stored stays, and one that is not stored appears only by
      the initializing write. */
  lemma DigestStep(store: Store, e: Event, part: Name)
    requires e.Valid()
    ensures var name := DigestName(part);
            if name in store then name in e.After(store) && e.After(store)[name] == store[name]
            else if e.DigestCheck? && e.part == part && Initializes(store, e.c, part, Some(e.digest)) then
              name in e.After(store) && e.After(store)[name] == e.digest && !e.c.unlocked
            else name !in e.After(store)
  {
    DigestNamesDiffer(part, part);
    if !e.ManageMode? {
      DigestNamesDiffer(part, e.part);
    }
  }

  /** Once there, a persistent digest never changes. */
  lemma {:induction false} DigestStays(store: Store, events: seq<Event>, i: nat, j: nat, part: Name)
    requires AllValid(events) && i <= j <= |events|
    requires DigestName(part) in StoreAfter(store, events[..i])
    ensures DigestName(part) in StoreAfter(store, events[..j])
    ensures StoreAfter(store, events[..j])[DigestName(part)] == StoreAfter(store, events[..i])[DigestName(part)]
    decreases j
  {
    hide Event.After;
    if i < j {
      DigestStays(store, events, i, j - 1, part);
      StoreAfterNext(store, events, j - 1);
      assert events[j - 1].Valid();
      DigestStep(StoreAfter(store, events[..j - 1]), events[j - 1], part);
    }
  }

  /** The value of a partition is written at most once, only while the device is locked, and
      what is written is the digest of that boot. */
  lemma WrittenAtMostOnce(store: Store, events: seq<Event>, i: nat, j: nat, part: Name)
    requires AllValid(events) && i < j < |events|
    requires WritesDigest(store, events, i, part)
    ensures !events[i].c.unlocked && !WritesDigest(store, events, j, part)
    ensures StoreAfter(store, events[..i + 1])[DigestName(part)] == events[i].digest
  {
    StoreAfterNext(store, events, i);
    assert events[i].Valid();
    DigestStep(StoreAfter(store, events[..i]), events[i], part);
    DigestStays(store, events, i + 1, j, part);
  }

  /** A check that can initialize the value of its partition. */
  predicate CanInitialize(e: Event, part: Name)
  {
    && e.DigestCheck? && e.part == part
    && e.c.implemented && e.c.readFault(DigestName(part)) == NoFault && e.c.lockFault == IoOk && !e.c.unlocked
    && e.c.writeFault(DigestName(part), |e.digest|) == IoOk
  }

  /** The digest that counts for a partition: what was stored before the run, otherwise that
      of the first event that could initialize it. */
  function FirstDigest(store: Store, events: seq<Event>, part: Name): Option<seq<byte>>
  {
    if events == [] then
      if DigestName(part) in store then Some(store[DigestName(part)]) else None
    else
      var n := |events| - 1;
      var first := FirstDigest(store, events[..n], part);
      if first.None? && CanInitialize(events[n], part) then Some(events[n].digest) else first
  }

  lemma {:induction false} StoreHoldsFirstDigest(store: Store, events: seq<Event>, part: Name)
    requires AllValid(events)
    ensures var s := StoreAfter(store, events);
            FirstDigest(store, events, part) ==
              if DigestName(part) in s then Some(s[DigestName(part)]) else None
  {
    if events != [] {
      var n := |events| - 1;
      StoreHoldsFirstDigest(store, events[..n], part);
      assert events[n].Valid();
      DigestStep(StoreAfter(store, events[..n]), events[n], part);
    }
  }

  /** A check succeeds exactly when the store can be read and the current digest is the
      first one. */
  lemma CheckSucceedsIffFirst(store: Store, events: seq<Event>, i: nat)
    requires AllValid(events) && i < |events| && events[i].DigestCheck?
    ensures var e := events[i];
            CheckResult(StoreAfter(store, events[..i + 1]), e.c, e.part, e.digest) == Ok <==>
              && e.c.implemented && e.c.readFault(DigestName(e.part)) == NoFault
              && FirstDigest(store, events[..i + 1], e.part) == Some(e.digest)
  {
    assert AllValid(events[..i + 1]);
    StoreHoldsFirstDigest(store, events[..i + 1], events[i].part);
  }

  // ------------------------------------------------- managed mode over boots

  datatype Boot = Boot(corruption: bool, vbmetaDigest: seq<byte>)

  /** The boots of a run whose mode was resolved; a failed boot does not count. */
  function Resolved(store: Store, events: seq<Event>): seq<Boot>
  {
    if events == [] then []
    else
      var n := |events| - 1;
      var before, e := Resolved(store, events[..n]), events[n];
      if e.ManageMode? && ModeResolved(StoreAfter(store, events[..n]), e.c, e.corruption, e.vbmetaDigest)
      then before + [Boot(e.corruption, e.vbmetaDigest)] else before
  }

  /** Boot j is the last one flagged as a restart caused by corruption, and the operating
      system has not changed since. */
  predicate SameSince(boots: seq<Boot>, j: nat)
    requires j < |boots|
  {
    && boots[j].corruption
    && (forall i :: j < i < |boots| ==> !boots[i].corruption)
    && (forall i :: j < i < |boots| ==> boots[i].vbmetaDigest == boots[j].vbmetaDigest)
  }

  predicate StaysInEio(boots: seq<Boot>)
  {
    exists j :: 0 <= j < |boots| && SameSince(boots, j)
  }

  lemma SameSinceNext(boots: seq<Boot>, b: Boot)
    ensures StaysInEio(boots + [b]) <==>
              b.corruption || (StaysInEio(boots) && |boots| > 0 && b.vbmetaDigest == boots[|boots| - 1].vbmetaDigest)
  {
    var next, n := boots + [b], |boots|;
    if b.corruption {
      assert SameSince(next, n);
    } else if StaysInEio(boots) && b.vbmetaDigest == boots[n - 1].vbmetaDigest {
      var j :| 0 <= j < n && SameSince(boots, j);
      assert SameSince(next, j);
    }
    if StaysInEio(next) && !b.corruption {
      var j :| 0 <= j <= n && SameSince(next, j);
      assert next[n] == b && j < n;
      assert forall i :: 0 <= i < n ==> next[i] == boots[i];
      assert SameSince(boots, j);
    }
  }

  /** One event that does not resolve a mode leaves the stored one alone. */
  lemma ModeStep(s: Store, e: Event)
    requires e.Valid()
    requires e.ManageMode? ==> !ModeResolved(s, e.c, e.corruption, e.vbmetaDigest)
    ensures MANAGED_VERITY_MODE in e.After(s) <==> MANAGED_VERITY_MODE in s
    ensures MANAGED_VERITY_MODE in s ==> e.After(s)[MANAGED_VERITY_MODE] == s[MANAGED_VERITY_MODE]
  {
    if e.DigestCheck? {
      DigestNamesDiffer(e.part, e.part);
    }
  }

  /** A resolved boot stores its digest if it stays or becomes eio and nothing otherwise. */
  lemma ResolvedStep(s: Store, e: Event)
    requires e.Valid() && e.ManageMode? && ModeResolved(s, e.c, e.corruption, e.vbmetaDigest)
    ensures MANAGED_VERITY_MODE in e.After(s) <==>
              e.corruption || (MANAGED_VERITY_MODE in s && s[MANAGED_VERITY_MODE] == e.vbmetaDigest)
    ensures MANAGED_VERITY_MODE in e.After(s) ==> e.After(s)[MANAGED_VERITY_MODE] == e.vbmetaDigest
  {
  }

  /** The store remembers exactly the digest of an operating system that is in eio mode. */
  lemma {:induction false} ModeStored(store: Store, events: seq<Event>)
    requires AllValid(events) && MANAGED_VERITY_MODE !in store
    ensures var s, boots := StoreAfter(store, events), Resolved(store, events);
            && (MANAGED_VERITY_MODE in s <==> StaysInEio(boots))
            && (StaysInEio(boots) ==>
                  |boots| > 0 && s[MANAGED_VERITY_MODE] == boots[|boots| - 1].vbmetaDigest)
  {
    hide StaysInEio, ModeResolved, Event.After;
    if events == [] {
      NoBoots();
    } else {
      var n := |events| - 1;
      var e, s, boots := events[n], StoreAfter(store, events[..n]), Resolved(store, events[..n]);
      ModeStored(store, events[..n]);
      assert e.Valid();
      if e.ManageMode? && ModeResolved(s, e.c, e.corruption, e.vbmetaDigest) {
        ResolvedStep(s, e);
        SameSinceNext(boots, Boot(e.corruption, e.vbmetaDigest));
      } else {
        ModeStep(s, e);
      }
    }
  }

  lemma NoBoots()
    ensures !StaysInEio([])
  {
  }

  /** Over any run from a fresh store, whatever boots failed and whatever digests were checked
      in between: a resolved boot is in eio mode exactly when some resolved boot so far was
      flagged and every boot since the last flagged one had the same vbmeta digest. */
  lemma ManagedModeIff(store: Store, events: seq<Event>, i: nat, mode: ErrorMode)
    requires AllValid(events) && MANAGED_VERITY_MODE !in store
    requires i < |events| && events[i].ManageMode?
    requires ModeResolved(StoreAfter(store, events[..i]), events[i].c, events[i].corruption, events[i].vbmetaDigest)
    requires mode == if MANAGED_VERITY_MODE in StoreAfter(store, events[..i + 1]) then Eio else Restart
    ensures mode == Eio <==> StaysInEio(Resolved(store, events[..i + 1]))
    ensures mode == Restart <==> !StaysInEio(Resolved(store, events[..i + 1]))
  {
    assert AllValid(events[..i + 1]);
    ModeStored(store, events[..i + 1]);
  }
}
