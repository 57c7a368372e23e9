/** Ordered insertion with merging (queue_bb) on lists of values: position, insertion,
    coalescing with both neighbours, and runs of insertions. */
module Queue {
  import opened Words
  import opened Blocks

  /** Where the search loop of queue_bb stops when started behind node `from - 1`. */
  function Position(s: seq<Block>, block: nat, from: nat): (p: nat)
    requires from <= |s|
    ensures from <= p <= |s|
    ensures forall i :: from <= i < p ==> s[i].block < block
    ensures p < |s| ==> s[p].block >= block
    decreases |s| - from
  {
    if from < |s| && s[from].block < block then Position(s, block, from + 1) else from
  }

  /** merge_bb on neighbours i and i + 1 of a list. */
  function Coalesce(bs: nat, t: seq<Block>, i: nat): seq<Block>
    requires bs > 0
  {
    if i + 1 < |t| && Merge(bs, t[i], t[i + 1]).Some?
    then t[..i] + [Merge(bs, t[i], t[i + 1]).value] + t[i + 2..]
    else t
  }

  /** Plain ordered insertion in front of index p. */
  function InsertAt(s: seq<Block>, b: Block, p: nat): seq<Block>
    requires p <= |s|
  {
    s[..p] + [b] + s[p..]
  }

  /** queue_bb as a function of the list alone. The two early returns (empty list, new head)
      skip the merging. */
  function Enqueue(bs: nat, s: seq<Block>, b: Block): seq<Block>
    requires bs > 0
  {
    if s == [] then [b]
    else if s[0].block > b.block then [b] + s
    else
      var p := Position(s, b.block, 1);
      Coalesce(bs, Coalesce(bs, InsertAt(s, b, p), p), p - 1)
  }

  /** The last_used hint does not matter: starting behind any node with a smaller block
      number stops at the same place. */
  lemma {:induction false} HintIrrelevant(g: Geometry, s: seq<Block>, block: nat, from: nat)
    requires StrictlyOrdered(g, s)
    requires 1 <= from <= |s| && s[from - 1].block < block
    ensures Position(s, block, from) == Position(s, block, 1)
  {
    if from > 1 {
      assert s[from - 2].block < s[from - 1].block;
      HintIrrelevant(g, s, block, from - 1);
    }
  }

  // ------------------------------------------------------------- invariants

  /** The region of b is not used by the list (the caller's obligation in sparse.h). */
  ghost predicate Unused(g: Geometry, s: seq<Block>, b: Block)
  {
    forall i :: 0 <= i < |s| ==> Before(g, s[i], b) || Before(g, b, s[i])
  }

  lemma DisjointBlocksOrder(g: Geometry, a: Block, b: Block)
    requires g.Valid() && a.len > 0 && b.len > 0
    requires Before(g, a, b) || Before(g, b, a)
    ensures a.block < b.block <==> Before(g, a, b)
    ensures a.block != b.block
  {
    BlockOrder(a.block, b.block, g.bs);
    BlockOrder(b.block, a.block, g.bs);
  }

  lemma InsertKeepsOrder(g: Geometry, s: seq<Block>, b: Block, p: nat, size: nat)
    requires g.Valid() && StrictlyOrdered(g, s) && Inside(g, s + [b], size) && Unused(g, s, b)
    requires p <= |s|
    requires forall i :: 0 <= i < p ==> s[i].block < b.block
    requires forall i :: p <= i < |s| ==> s[i].block >= b.block
    ensures StrictlyOrdered(g, InsertAt(s, b, p))
    ensures Inside(g, InsertAt(s, b, p), size)
  {
    assert (s + [b])[|s|] == b;
    forall i | 0 <= i < |s|
      ensures s[i].len > 0 && End(g, s[i]) <= size
      ensures i < p ==> Before(g, s[i], b)
      ensures i >= p ==> b.block < s[i].block && Before(g, b, s[i])
    {
      assert (s + [b])[i] == s[i];
      DisjointBlocksOrder(g, s[i], b);
      DisjointBlocksOrder(g, b, s[i]);
    }
  }

  lemma NotCovered(g: Geometry, s: seq<Block>, b: Block, o: int)
    requires Unused(g, s, b) && Covers(g, b, o)
    ensures forall i :: 0 <= i < |s| ==> !Covers(g, s[i], o)
  {
  }

  /** Insertion adds exactly the bytes of the new block. */
  lemma InsertContent(g: Geometry, s: seq<Block>, b: Block, p: nat, o: int)
    requires g.Valid() && Unused(g, s, b) && p <= |s|
    ensures At(g, InsertAt(s, b, p), o) == Or(ByteOf(g, b, o), At(g, s, o))
  {
    hide Covers, Unused;
    AtConcat(g, s[..p] + [b], s[p..], o);
    AtConcat(g, s[..p], [b], o);
    AtOne(g, b, o);
    AtConcat(g, s[..p], s[p..], o);
    assert s[..p] + s[p..] == s;
    if Covers(g, b, o) {
      NotCovered(g, s, b, o);
      AtNone(g, s[..p], o);
    }
  }

  // ------------------------------------------------- what a merge can reach

  /** What adjacent blocks must share to be merged: the fill value, or the file and the distance
      between file offset and image offset. Data in memory is never merged. */
  datatype Source = FillSource(val: u32) | FileSource(name: string, shift: int) | FdSource(fd: int, shift: int)

  ghost function SourceOf(g: Geometry, b: Block): Option<Source>
  {
    match b.backing
    case Data(_) => None
    case Fill(v) => Some(FillSource(v))
    case File(f, o) => Some(FileSource(f, o - Start(g, b)))
    case Fd(f, o) => Some(FdSource(f, o - Start(g, b)))
  }

  /** Some block of the list takes the byte at o from src. */
  ghost predicate Supplies(g: Geometry, s: seq<Block>, src: Source, o: int)
  {
    exists i :: 0 <= i < |s| && SourceOf(g, s[i]) == Some(src) && Covers(g, s[i], o)
  }

  /** [lo, hi) comes from one source without a gap. */
  ghost predicate RunOf(g: Geometry, s: seq<Block>, src: Source, lo: int, hi: int)
  {
    lo < hi && forall o :: lo <= o < hi ==> Supplies(g, s, src, o)
  }

  /** No run, and so nothing that merging can produce, is as long as the limit. */
  ghost predicate RunsBelow(g: Geometry, s: seq<Block>, limit: nat)
  {
    forall src, lo, hi :: RunOf(g, s, src, lo, hi) ==> hi - lo < limit
  }

  /** t takes no byte from a source that s does not take it from. */
  ghost predicate Within(g: Geometry, t: seq<Block>, s: seq<Block>)
  {
    forall src, o :: Supplies(g, t, src, o) ==> Supplies(g, s, src, o)
  }

  lemma WithinSelf(g: Geometry, s: seq<Block>)
    ensures Within(g, s, s)
  {
  }

  /** Members only. */
  lemma WithinMembers(g: Geometry, t: seq<Block>, s: seq<Block>)
    requires forall b :: b in t ==> b in s
    ensures Within(g, t, s)
  {
    forall src, o | Supplies(g, t, src, o) ensures Supplies(g, s, src, o) {
      var i :| 0 <= i < |t| && SourceOf(g, t[i]) == Some(src) && Covers(g, t[i], o);
      assert t[i] in s;
      var j :| 0 <= j < |s| && s[j] == t[i];
    }
  }

  lemma WithinTrans(g: Geometry, t: seq<Block>, s: seq<Block>, u: seq<Block>)
    requires Within(g, t, s) && Within(g, s, u)
    ensures Within(g, t, u)
  {
  }

  /** Shorter lists have no longer runs. */
  lemma RunsBelowWithin(g: Geometry, t: seq<Block>, s: seq<Block>, limit: nat)
    requires Within(g, t, s) && RunsBelow(g, s, limit)
    ensures RunsBelow(g, t, limit)
  {
    forall src, lo, hi | RunOf(g, t, src, lo, hi) ensures hi - lo < limit {
      assert RunOf(g, s, src, lo, hi);
    }
  }

  /** An image shorter than the limit has no longer run. */
  lemma SmallImageRuns(g: Geometry, s: seq<Block>, size: nat, limit: nat)
    requires Inside(g, s, size) && size < limit
    ensures RunsBelow(g, s, limit)
  {
    forall src, lo, hi | RunOf(g, s, src, lo, hi) ensures hi - lo < limit {
      assert Supplies(g, s, src, lo) && Supplies(g, s, src, hi - 1);
    }
  }

  /** A merged block is a run, so its length fits. */
  lemma MergeFits(g: Geometry, a: Block, b: Block, t: seq<Block>, all: seq<Block>)
    requires g.Valid() && Before(g, a, b) && Merge(g.bs, a, b).Some?
    requires a in t && b in t && Within(g, t, all) && RunsBelow(g, all, B32)
    ensures a.len + b.len < B32
  {
    MergeTouches(g, a, b);
    var src := SourceOf(g, a).value;
    assert SourceOf(g, b) == Some(src);
    var lo, hi := Start(g, a), End(g, b);
    forall o | lo <= o < hi ensures Supplies(g, all, src, o) {
      assert Supplies(g, t, src, o);
    }
    if lo < hi {
      assert RunOf(g, all, src, lo, hi);
    }
  }

  /** Coalescing leaves the list alone or replaces two neighbours by one block. */
  lemma CoalesceCases(bs: nat, t: seq<Block>, i: nat)
    requires bs > 0
    ensures Coalesce(bs, t, i) ==
              if i + 1 < |t| && Merge(bs, t[i], t[i + 1]).Some? then t[..i] + [Merge(bs, t[i], t[i + 1]).value] + t[i + 2..] else t
  {
    hide Merge;
  }

  /** The neighbours of a list that are merged touch, and the joined block fits. */
  lemma MergedFacts(g: Geometry, t: seq<Block>, i: nat, all: seq<Block>)
    requires g.Valid() && StrictlyOrdered(g, t) && Within(g, t, all) && RunsBelow(g, all, B32)
    requires i + 1 < |t| && Merge(g.bs, t[i], t[i + 1]).Some?
    ensures var a, b, m := t[i], t[i + 1], Merge(g.bs, t[i], t[i + 1]).value;
            && m == Block(a.block, a.len + b.len, a.backing) && End(g, a) == Start(g, b) && SourceOf(g, a) == SourceOf(g, b) != None
  {
    assert Before(g, t[i], t[i + 1]);
    hide StrictlyOrdered, Within, RunsBelow;
    MergeTouches(g, t[i], t[i + 1]);
    MergeFits(g, t[i], t[i + 1], t, all);
    MergedValue(g.bs, t[i], t[i + 1]);
  }

  /** A block that covers what two neighbours of its source cover takes no byte from elsewhere. */
  lemma JoinedWithin(g: Geometry, t: seq<Block>, i: nat, m: Block)
    requires i + 1 < |t| && End(g, t[i]) == Start(g, t[i + 1]) && SourceOf(g, t[i]) == SourceOf(g, t[i + 1]) != None
    requires m == Block(t[i].block, t[i].len + t[i + 1].len, t[i].backing)
    ensures Within(g, t[..i] + [m] + t[i + 2..], t)
  {
    var u := t[..i] + [m] + t[i + 2..];
    forall src, o | Supplies(g, u, src, o) ensures Supplies(g, t, src, o) {
      var j :| 0 <= j < |u| && SourceOf(g, u[j]) == Some(src) && Covers(g, u[j], o);
      if j == i {
        assert Covers(g, t[i], o) || Covers(g, t[i + 1], o);
      } else {
        assert u[j] == t[if j < i then j else j + 1];
      }
    }
  }

  /** Coalescing takes bytes only from where they came. */
  lemma CoalesceWithin(g: Geometry, t: seq<Block>, i: nat, all: seq<Block>)
    requires g.Valid() && StrictlyOrdered(g, t) && Within(g, t, all) && RunsBelow(g, all, B32)
    ensures Within(g, Coalesce(g.bs, t, i), all)
  {
    hide Within, RunsBelow, Merge, Coalesce, StrictlyOrdered, SourceOf;
    CoalesceCases(g.bs, t, i);
    if i + 1 < |t| && Merge(g.bs, t[i], t[i + 1]).Some? {
      MergedFacts(g, t, i, all);
      JoinedWithin(g, t, i, Merge(g.bs, t[i], t[i + 1]).value);
      WithinTrans(g, Coalesce(g.bs, t, i), t, all);
    }
  }

  /** Coalescing neighbours keeps order and bounds. */
  lemma CoalesceKeeps(g: Geometry, t: seq<Block>, i: nat, size: nat, all: seq<Block>)
    requires g.Valid() && StrictlyOrdered(g, t) && Inside(g, t, size)
    requires Within(g, t, all) && RunsBelow(g, all, B32)
    ensures StrictlyOrdered(g, Coalesce(g.bs, t, i)) && Inside(g, Coalesce(g.bs, t, i), size)
    ensures Within(g, Coalesce(g.bs, t, i), all)
  {
    hide Within, RunsBelow, Merge, Coalesce, StrictlyOrdered, Inside;
    CoalesceWithin(g, t, i, all);
    CoalesceCases(g.bs, t, i);
    if i + 1 < |t| && Merge(g.bs, t[i], t[i + 1]).Some? {
      MergedFacts(g, t, i, all);
      JoinedKeeps(g, t, i, Merge(g.bs, t[i], t[i + 1]).value, size);
    }
  }

  /** Two touching neighbours replaced by one block that covers both. */
  lemma JoinedKeeps(g: Geometry, t: seq<Block>, i: nat, m: Block, size: nat)
    requires StrictlyOrdered(g, t) && Inside(g, t, size) && i + 1 < |t|
    requires m.block == t[i].block && m.len == t[i].len + t[i + 1].len && End(g, t[i]) == Start(g, t[i + 1])
    ensures var u := t[..i] + [m] + t[i + 2..]; StrictlyOrdered(g, u) && Inside(g, u, size)
  {
    var u := t[..i] + [m] + t[i + 2..];
    forall j, k | 0 <= j < k < |u|
      ensures u[j].block < u[k].block && Before(g, u[j], u[k])
    {
      var j' := if j <= i then j else j + 1;
      var k' := if k <= i then k else k + 1;
      assert j' < k';
      assert t[j'].block < t[k'].block && Before(g, t[j'], t[k']);
      if j == i {
        assert Before(g, t[i + 1], t[k']);
      }
    }
  }

  /** Coalescing keeps every byte... */
  lemma CoalesceContent(g: Geometry, t: seq<Block>, i: nat, all: seq<Block>, o: int)
    requires g.Valid() && StrictlyOrdered(g, t) && Within(g, t, all) && RunsBelow(g, all, B32)
    ensures At(g, Coalesce(g.bs, t, i), o) == At(g, t, o)
  {
    hide Within, RunsBelow;
    if i + 1 < |t| && Merge(g.bs, t[i], t[i + 1]).Some? {
      MergeFits(g, t[i], t[i + 1], t, all);
      CoalesceFits(g, t, i, o);
    }
  }

  lemma CoalesceFits(g: Geometry, t: seq<Block>, i: nat, o: int)
    requires g.Valid() && StrictlyOrdered(g, t)
    requires i + 1 < |t| && Merge(g.bs, t[i], t[i + 1]).Some? && t[i].len + t[i + 1].len < B32
    ensures At(g, Coalesce(g.bs, t, i), o) == At(g, t, o)
  {
    var a, b := t[i], t[i + 1];
    MergeContent(g, a, b, o);
    var m := Merge(g.bs, a, b).value;
    assert t == t[..i] + ([a] + [b]) + t[i + 2..];
    hide Merge;
    AtConcat(g, t[..i] + ([a] + [b]), t[i + 2..], o);
    AtConcat(g, t[..i], [a] + [b], o);
    AtConcat(g, [a], [b], o);
    AtConcat(g, t[..i] + [m], t[i + 2..], o);
    AtConcat(g, t[..i], [m], o);
  }

  /** ... exactly when the joined length fits its 32-bit field. */
  lemma CoalesceKeepsContentIff(g: Geometry, t: seq<Block>, i: nat, size: nat)
    requires g.Valid() && StrictlyOrdered(g, t) && Inside(g, t, size)
    requires i + 1 < |t| && Merge(g.bs, t[i], t[i + 1]).Some?
    ensures (forall o :: At(g, Coalesce(g.bs, t, i), o) == At(g, t, o)) <==> t[i].len + t[i + 1].len < B32
  {
    var a, b := t[i], t[i + 1];
    if a.len + b.len < B32 {
      forall o ensures At(g, Coalesce(g.bs, t, i), o) == At(g, t, o) {
        CoalesceFits(g, t, i, o);
      }
    } else {
      var o := End(g, b) - 1;
      MergeOverflow(g, a, b);
      OrderedWhenStrict(g, t);
      AtWitness(g, t, o, i + 1);
      var u := Coalesce(g.bs, t, i);
      forall j | 0 <= j < |u| ensures !Covers(g, u[j], o) {
        if j != i {
          var j' := if j < i then j else j + 1;
          assert u[j] == t[j'] && j' != i + 1;
          assert Before(g, t[j'], b) || Before(g, b, t[j']);
        }
      }
      AtNone(g, u, o);
    }
  }

  lemma OrderedWhenStrict(g: Geometry, s: seq<Block>)
    requires StrictlyOrdered(g, s)
    ensures Ordered(g, s)
  {
  }

  /** queue_bb refines plain ordered insertion: the list stays strictly sorted, non-overlapping
      and inside the image, and gains exactly the bytes of the new block. Images may be of any
      size; only what can be merged is bounded, by the width of the length field. */
  lemma EnqueueKeepsOrder(g: Geometry, s: seq<Block>, b: Block, size: nat, all: seq<Block>)
    requires g.Valid() && StrictlyOrdered(g, s) && Inside(g, s + [b], size) && Unused(g, s, b)
    requires Within(g, s + [b], all) && RunsBelow(g, all, B32)
    ensures StrictlyOrdered(g, Enqueue(g.bs, s, b)) && Inside(g, Enqueue(g.bs, s, b), size)
    ensures Within(g, Enqueue(g.bs, s, b), all)
  {
    hide Within, RunsBelow, Coalesce;
    assert (s + [b])[|s|] == b;
    if s == [] {
      assert s + [b] == [b];
    } else if s[0].block > b.block {
      assert InsertAt(s, b, 0) == [b] + s;
      InsertKeepsOrder(g, s, b, 0, size);
      InsertWithin(g, s, b, 0, all);
    } else {
      var p := InsertPosition(g, s, b, size);
      InsertKeepsOrder(g, s, b, p, size);
      InsertWithin(g, s, b, p, all);
      CoalesceKeeps(g, InsertAt(s, b, p), p, size, all);
      CoalesceKeeps(g, Coalesce(g.bs, InsertAt(s, b, p), p), p - 1, size, all);
    }
  }

  lemma InsertWithin(g: Geometry, s: seq<Block>, b: Block, p: nat, all: seq<Block>)
    requires p <= |s| && Within(g, s + [b], all)
    ensures Within(g, InsertAt(s, b, p), all)
  {
    forall x | x in InsertAt(s, b, p) ensures x in s + [b] {
    }
    WithinMembers(g, InsertAt(s, b, p), s + [b]);
    WithinTrans(g, InsertAt(s, b, p), s + [b], all);
  }

  lemma InsertPosition(g: Geometry, s: seq<Block>, b: Block, size: nat) returns (p: nat)
    requires g.Valid() && StrictlyOrdered(g, s) && Inside(g, s + [b], size) && Unused(g, s, b)
    requires |s| > 0 && s[0].block <= b.block
    ensures p == Position(s, b.block, 1)
    ensures forall i :: 0 <= i < p ==> s[i].block < b.block
    ensures forall i :: p <= i < |s| ==> s[i].block >= b.block
  {
    p := Position(s, b.block, 1);
    assert (s + [b])[|s|] == b && (s + [b])[0] == s[0];
    DisjointBlocksOrder(g, s[0], b);
    forall i | p <= i < |s| ensures s[i].block >= b.block {
      assert s[p].block <= s[i].block;
    }
  }

  lemma EnqueueContent(g: Geometry, s: seq<Block>, b: Block, size: nat, all: seq<Block>, o: int)
    requires g.Valid() && StrictlyOrdered(g, s) && Inside(g, s + [b], size) && Unused(g, s, b)
    requires Within(g, s + [b], all) && RunsBelow(g, all, B32)
    ensures At(g, Enqueue(g.bs, s, b), o) == Or(ByteOf(g, b, o), At(g, s, o))
  {
    hide Within, RunsBelow, Coalesce;
    if s == [] {
      AtOne(g, b, o);
    } else if s[0].block > b.block {
      assert InsertAt(s, b, 0) == [b] + s;
      InsertContent(g, s, b, 0, o);
    } else {
      var p := InsertPosition(g, s, b, size);
      var t := InsertAt(s, b, p);
      InsertKeepsOrder(g, s, b, p, size);
      InsertWithin(g, s, b, p, all);
      InsertContent(g, s, b, p, o);
      CoalesceKeeps(g, t, p, size, all);
      CoalesceContent(g, t, p, all, o);
      CoalesceContent(g, Coalesce(g.bs, t, p), p - 1, all, o);
    }
  }

  // ------------------------------------------------------- runs of insertions

  /** The list after a sequence of adds. */
  function EnqueueAll(bs: nat, adds: seq<Block>): seq<Block>
    requires bs > 0
  {
    if adds == [] then [] else Enqueue(bs, EnqueueAll(bs, adds[..|adds| - 1]), adds[|adds| - 1])
  }

  ghost predicate PairwiseDisjoint(g: Geometry, adds: seq<Block>)
  {
    forall i, j :: 0 <= i < j < |adds| ==> Before(g, adds[i], adds[j]) || Before(g, adds[j], adds[i])
  }

  /** For every run of adds in any order, of regions that do not overlap, the list is sorted
      and its content is the union of what was added. */
  lemma RunOfAdds(g: Geometry, adds: seq<Block>, size: nat)
    requires g.Valid() && PairwiseDisjoint(g, adds) && Inside(g, adds, size) && RunsBelow(g, adds, B32)
    ensures var s := EnqueueAll(g.bs, adds);
            && StrictlyOrdered(g, s) && Inside(g, s, size) && Within(g, s, adds)
            && forall o :: At(g, s, o) == At(g, adds, o)
  {
    WithinSelf(g, adds);
    AddsWithin(g, adds, size, adds);
  }

  lemma {:induction false} AddsWithin(g: Geometry, adds: seq<Block>, size: nat, all: seq<Block>)
    requires g.Valid() && PairwiseDisjoint(g, adds) && Inside(g, adds, size)
    requires Within(g, adds, all) && RunsBelow(g, all, B32)
    ensures var s := EnqueueAll(g.bs, adds);
            && StrictlyOrdered(g, s) && Inside(g, s, size) && Within(g, s, all)
            && forall o :: At(g, s, o) == At(g, adds, o)
  {
    hide Within, RunsBelow, Enqueue, StrictlyOrdered, Inside, PairwiseDisjoint, Unused;
    if adds == [] {
      NothingAdded(g, all, size);
    } else {
      var k := |adds| - 1;
      var init, b := adds[..k], adds[k];
      InitAdds(g, adds, size);
      WithinInit(g, adds, all);
      AddsWithin(g, init, size, all);
      var s := EnqueueAll(g.bs, init);
      UnusedFromContent(g, init, s, b, size);
      InsideNext(g, s, adds, size);
      WithinNext(g, s, adds, all);
      EnqueueKeepsOrder(g, s, b, size, all);
      forall o ensures At(g, EnqueueAll(g.bs, adds), o) == At(g, adds, o) {
        EnqueueContent(g, s, b, size, all, o);
        AddedContent(g, init, b, o);
        assert adds == init + [b];
      }
    }
  }

  /** One more disjoint block. */
  lemma AddedContent(g: Geometry, init: seq<Block>, b: Block, o: int)
    requires forall i :: 0 <= i < |init| ==> Before(g, init[i], b) || Before(g, b, init[i])
    ensures At(g, init + [b], o) == Or(ByteOf(g, b, o), At(g, init, o))
  {
    AtConcat(g, init, [b], o);
    AtOne(g, b, o);
    if Covers(g, b, o) {
      AtNone(g, init, o);
    }
  }

  lemma InitAdds(g: Geometry, adds: seq<Block>, size: nat)
    requires adds != [] && PairwiseDisjoint(g, adds) && Inside(g, adds, size)
    ensures var init, b := adds[..|adds| - 1], adds[|adds| - 1];
            && PairwiseDisjoint(g, init) && Inside(g, init, size) && b.len > 0
            && forall i :: 0 <= i < |init| ==> Before(g, init[i], b) || Before(g, b, init[i])
  {
  }

  lemma InsideNext(g: Geometry, s: seq<Block>, adds: seq<Block>, size: nat)
    requires adds != [] && Inside(g, s, size) && Inside(g, adds, size)
    ensures Inside(g, s + [adds[|adds| - 1]], size)
  {
  }

  lemma NothingAdded(g: Geometry, all: seq<Block>, size: nat)
    ensures Within(g, [], all) && StrictlyOrdered(g, []) && Inside(g, [], size)
  {
    NothingWithin(g, all);
  }

  lemma NothingWithin(g: Geometry, all: seq<Block>)
    ensures Within(g, [], all)
  {
  }

  lemma WithinInit(g: Geometry, adds: seq<Block>, all: seq<Block>)
    requires adds != [] && Within(g, adds, all)
    ensures Within(g, adds[..|adds| - 1], all)
  {
    WithinMembers(g, adds[..|adds| - 1], adds);
    WithinTrans(g, adds[..|adds| - 1], adds, all);
  }

  lemma WithinNext(g: Geometry, s: seq<Block>, adds: seq<Block>, all: seq<Block>)
    requires adds != [] && Within(g, s, all) && Within(g, adds, all)
    ensures Within(g, s + [adds[|adds| - 1]], all)
  {
    var b := adds[|adds| - 1];
    forall src, o | Supplies(g, s + [b], src, o) ensures Supplies(g, all, src, o) {
      var i :| 0 <= i < |s + [b]| && SourceOf(g, (s + [b])[i]) == Some(src) && Covers(g, (s + [b])[i], o);
      if i < |s| {
        assert Supplies(g, s, src, o);
      } else {
        assert adds[|adds| - 1] == b;
        assert Supplies(g, adds, src, o);
      }
    }
  }

  /** A region disjoint from the added blocks is disjoint from the merged list: merging only
      covers offsets that were covered. */
  lemma UnusedFromContent(g: Geometry, adds: seq<Block>, s: seq<Block>, b: Block, size: nat)
    requires g.Valid() && StrictlyOrdered(g, s) && Inside(g, s, size)
    requires b.len > 0
    requires forall i :: 0 <= i < |adds| ==> Before(g, adds[i], b) || Before(g, b, adds[i])
    requires forall o :: At(g, s, o) == At(g, adds, o)
    ensures Unused(g, s, b)
  {
    forall i | 0 <= i < |s|
      ensures Before(g, s[i], b) || Before(g, b, s[i])
    {
      if !Before(g, s[i], b) && !Before(g, b, s[i]) {
        var o := if Start(g, s[i]) <= Start(g, b) then Start(g, b) else Start(g, s[i]);
        assert Covers(g, s[i], o) && Covers(g, b, o);
        AtWitness(g, s, o, i);
        AtNone(g, adds, o);
        assert false;
      }
    }
  }

  /** The bound is needed: two fills of the same value that together reach 2^32 bytes merge to an
      empty block, and all their bytes are lost. */
  lemma OverlongRunLosesBytes(g: Geometry, v: u32, n: nat)
    requires g.Valid() && 0 < n && 2 * (n * g.bs) == B32
    ensures var a, b := Block(0, n * g.bs, Fill(v)), Block(n, n * g.bs, Fill(v));
            && Before(g, a, b) && Enqueue(g.bs, [a], b) == [Block(0, 0, Fill(v))]
            && At(g, [a], 0).Some? && At(g, Enqueue(g.bs, [a], b), 0).None?
  {
    var a, b := Block(0, n * g.bs, Fill(v)), Block(n, n * g.bs, Fill(v));
    QuotientOfMultiple(n, g.bs);
    assert Position([a], n, 1) == 1;
    assert InsertAt([a], b, 1) == [a, b];
    assert Coalesce(g.bs, [a, b], 1) == [a, b];
    assert Merge(g.bs, a, b) == Some(Block(0, 0, Fill(v)));
    assert Coalesce(g.bs, [a, b], 0) == [Block(0, 0, Fill(v))];
    AtOne(g, a, 0);
    AtOne(g, Block(0, 0, Fill(v)), 0);
  }
}
