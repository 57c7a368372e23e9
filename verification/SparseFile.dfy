/** Sparse files as objects: moving nodes between lists, move_chunks_up_to_len and
    sparse_file_resparse on the linked lists. */
module SparseFile {
  import opened Words
  import opened Blocks
  import opened Queue
  import opened BlockList
  import opened Resparse

  /** A run of backed_block_add_* calls on a new list. */
  method BuildList(adds: seq<Block>, bs: nat, ghost g: Geometry, ghost size: nat) returns (list: List)
    requires g.Valid() && g.bs == bs
    requires PairwiseDisjoint(g, adds) && Inside(g, adds, size) && RunsBelow(g, adds, B32)
    ensures list.Valid() && list.bs == bs && list.Contents() == EnqueueAll(bs, adds)
  {
    hide Linked, Distinct, Values, Enqueue, StrictlyOrdered, Unused, Inside, PairwiseDisjoint, At, RunsBelow;
    list := new List(bs);
    var i := 0;
    assert adds[..0] == [];
    while i < |adds|
      invariant 0 <= i <= |adds| && list.Valid() && list.bs == bs && fresh(list)
      invariant forall n :: n in list.spine ==> fresh(n)
      invariant list.Contents() == EnqueueAll(bs, adds[..i])
    {
      NextAdd(g, adds, i, size);
      var nb := new Node(adds[i]);
      assert nb !in list.spine;
      MembersByIndex(list.spine);
      list.QueueBb(nb, g, size);
      assert adds[..i + 1][..i] == adds[..i];
      i := i + 1;
    }
    assert adds[..i] == adds;
  }

  lemma NextAdd(g: Geometry, adds: seq<Block>, i: nat, size: nat)
    requires g.Valid() && i < |adds|
    requires PairwiseDisjoint(g, adds) && Inside(g, adds, size) && RunsBelow(g, adds, B32)
    ensures var s := EnqueueAll(g.bs, adds[..i]);
            StrictlyOrdered(g, s) && Inside(g, s + [adds[i]], size) && Unused(g, s, adds[i])
  {
    WithinMembers(g, adds[..i], adds);
    hide RunsBelow, Within;
    AddsWithin(g, adds[..i], size, adds);
    UnusedFromContent(g, adds[..i], EnqueueAll(g.bs, adds[..i]), adds[i], size);
  }

  /** The search for the last node. */
  method LastNode(list: List, start: Node) returns (end: Node)
    requires list.Chained() && list.spine != [] && list.spine[0] == start
    ensures end == list.spine[|list.spine| - 1]
  {
    hide Linked, Distinct;
    end := start;
    ghost var i := 0;
    list.NextOf(0);
    while end.next != null
      invariant 0 <= i < |list.spine| && list.spine[i] == end && end.next == After(list.spine, i)
      decreases |list.spine| - i
    {
      end, i := end.next, i + 1;
      list.NextOf(i);
    }
  }

  lemma PrefixConnected(nodes: seq<Node>, k: nat)
    requires k <= |nodes| && Linked(nodes)
    ensures Connected(nodes[..k])
  {
    forall i | 0 <= i < k - 1 ensures nodes[..k][i].next == After(nodes[..k], i) {
      assert nodes[..k][i] == nodes[i] && nodes[..k][i + 1] == nodes[i + 1];
    }
  }

  lemma PrefixDistinct(nodes: seq<Node>, k: nat)
    requires k <= |nodes| && Distinct(nodes)
    ensures Distinct(nodes[..k]) && Apart(nodes[..k], nodes[k..])
  {
    forall n | n in nodes[..k] ensures n !in nodes[k..] {
      var i :| 0 <= i < k && nodes[i] == n;
      forall j | 0 <= j < |nodes| - k ensures nodes[k..][j] != n {
        assert nodes[k..][j] == nodes[k + j];
      }
    }
  }

  lemma PrefixMembers(nodes: seq<Node>, k: nat)
    requires k <= |nodes|
    ensures forall n :: n in nodes <==> n in nodes[..k] || n in nodes[k..]
  {
    assert nodes == nodes[..k] + nodes[k..];
  }

  lemma NothingApart(p: seq<Node>, q: seq<Node>)
    requires q == []
    ensures Apart(p, q)
  {
  }

  /** A list whose own fields and links are untouched is still chained. */
  twostate lemma KeepsChain(list: List)
    requires old(list.Chained())
    requires list.spine == old(list.spine) && list.dataBlocks == old(list.dataBlocks)
    requires forall i :: 0 <= i < |list.spine| ==> list.spine[i].next == old(list.spine[i].next)
    ensures list.Chained()
  {
  }

  /** Moves the first k > 0 nodes. */
  method MoveSegment(from: List, to: List, start: Node, last: Node, ghost k: nat)
    requires from != to && from.Valid() && to.Valid() && Apart(from.spine, to.spine)
    requires 0 < k <= |from.spine| && from.spine[0] == start && from.spine[k - 1] == last
    modifies from, to, from.spine`next, to.spine`next
    ensures from.Valid() && to.Valid()
    ensures from.spine == old(from.spine)[k..]
    ensures to.Contents() == MoveInto(old(to.Contents()), old(Values(from.spine[..k])))
    ensures forall n :: n in to.spine <==> n in old(to.spine) || n in old(from.spine)[..k]
  {
    hide Linked, Distinct, Connected, Values, MoveInto;
    ghost var nodes := from.spine;
    ghost var seg := nodes[..k];
    PrefixConnected(nodes, k);
    PrefixDistinct(nodes, k);
    PrefixMembers(nodes, k);
    from.TakeFront(last, k);
    assert last in seg by {
      assert seg[k - 1] == last;
    }
    label taken:
    to.PutSegment(start, last, seg);
    forall i | 0 <= i < |from.spine| ensures from.spine[i].next == old@taken(from.spine[i].next) {
      assert from.spine[i] in from.spine;
    }
    KeepsChain@taken(from);
  }

  /** backed_block_list_move for a segment that starts at the head of `from`: `end` is its last
      node, or null for the whole list. */
  method ListMove(from: List, to: List, end: Node?, ghost k: nat)
    requires from != to && from.Valid() && to.Valid() && Apart(from.spine, to.spine)
    requires k <= |from.spine|
    requires if end == null then k == |from.spine| else k > 0 && from.spine[k - 1] == end
    modifies from, to, from.spine`next, to.spine`next
    ensures from.Valid() && to.Valid() && Apart(from.spine, to.spine)
    ensures from.spine == old(from.spine)[k..]
    ensures from.Contents() == old(from.Contents())[k..]
    ensures to.Contents() == MoveInto(old(to.Contents()), old(from.Contents())[..k])
    ensures forall n :: n in to.spine <==> n in old(to.spine) || n in old(from.spine)[..k]
  {
    hide Linked, Connected, Values;
    ghost var nodes, vals := from.spine, from.Contents();
    var start := from.dataBlocks;
    if start == null {
      assert vals[..k] == [] && vals[k..] == vals;
      return;
    }
    PrefixDistinct(nodes, k);
    PrefixMembers(nodes, k);
    ValuesSlice(nodes, 0, k);
    ValuesSlice(nodes, k, |nodes|);
    hide Distinct, MoveInto;
    if end == null {
      var last := LastNode(from, start);
      MoveSegment(from, to, start, last, k);
    } else {
      MoveSegment(from, to, start, end, k);
    }
  }

  // ------------------------------------------------- move_chunks_up_to_len

  /** The counting loop: stops at the first block that does not fit. */
  method ScanChunks(from: List, len: nat) returns (bb: Node?, lastBb: Node?, fileLen: nat, ghost k: nat)
    requires from.Chained()
    ensures k == Cut(from.bs, len, from.Contents(), 0)
    ensures fileLen == BodyLength(from.bs, from.Contents()[..k])
    ensures bb == if k < |from.spine| then from.spine[k] else null
    ensures lastBb == if k == 0 then null else from.spine[k - 1]
  {
    hide Linked, Distinct, ChunkLength, BodyLength, DivRoundUp;
    ghost var s := from.Contents();
    bb, lastBb, fileLen, k := from.dataBlocks, null, 0, 0;
    var lastBlock := 0;
    assert s[..0] == [];
    EmptyBody(from.bs);
    while bb != null
      invariant 0 <= k <= |s|
      invariant bb == if k < |s| then from.spine[k] else null
      invariant lastBb == if k == 0 then null else from.spine[k - 1]
      invariant lastBlock == LastBlock(from.bs, s[..k])
      invariant fileLen == BodyLength(from.bs, s[..k])
      invariant Cut(from.bs, len, s, k) == Cut(from.bs, len, s, 0)
      decreases |s| - k
    {
      var count := (if bb.val.block > lastBlock then CHUNK_HEADER_LEN else 0) + ChunkLength(from.bs, bb.val);
      BodyLengthStep(from.bs, s, k);
      if fileLen + count > len {
        return;
      }
      lastBlock := EndBlock(from.bs, bb.val);
      fileLen := fileLen + count;
      assert s[..k + 1][|s[..k + 1]| - 1] == s[k];
      from.NextOf(k);
      lastBb, bb, k := bb, bb.next, k + 1;
    }
  }

  /** Splits the block at the cut when it is the first or enough room is left; returns the
      last node that goes into the new file. */
  method SplitAtCut(from: List, len: nat, bb: Node, lastBb: Node?, fileLen: nat, ghost k: nat) returns (end: Node?, ghost n: nat)
    requires from.Valid() && k < |from.spine| && from.spine[k] == bb
    requires lastBb == if k == 0 then null else from.spine[k - 1]
    requires fileLen == BodyLength(from.bs, from.Contents()[..k])
    modifies from`spine, bb
    ensures from.Valid() && 0 < n <= |from.spine| && end == from.spine[n - 1]
    ensures from.Contents() == AfterSplit(from.bs, old(from.Contents()), len, k)
    ensures n == if Splits(from.bs, len, old(from.Contents()), k) then k + 1 else k
    ensures forall i :: 0 <= i < |from.spine| ==> from.spine[i] in old(from.spine) || fresh(from.spine[i])
  {
    hide Linked, Distinct, Values;
    end, n := lastBb, k;
    var used := fileLen + CHUNK_HEADER_LEN;
    if lastBb == null || len - used > len / 8 {
      from.SplitBb(bb, (len - used) % B32, k);
      end, n := bb, k + 1;
    }
  }

  /** The list after the optional split at the cut. */
  ghost function AfterSplit(bs: nat, s: seq<Block>, len: nat, k: nat): seq<Block>
    requires bs > 0 && k < |s|
  {
    if Splits(bs, len, s, k) then s[..k] + Pieces(bs, s[k], SplitRoom(bs, len, s, k)) + s[k + 1..] else s
  }

  /** Moves as many leading blocks as fit into `to`, splitting the next one when worthwhile;
      returns null when nothing is left to move. */
  method MoveChunksUpToLen(from: List, to: List, maxLen: nat) returns (bb: Node?)
    requires from != to && from.Valid() && to.Valid() && to.spine == [] && from.bs == to.bs
    modifies from, to, from.spine
    ensures from.Valid() && to.Valid() && Apart(from.spine, to.spine)
    ensures var round := MoveChunks(from.bs, old(from.Contents()), maxLen);
            && to.Contents() == round.moved
            && from.Contents() == round.rest
            && (bb != null <==> round.more)
    ensures forall m :: m in from.spine || m in to.spine ==> m in old(from.spine) || fresh(m)
  {
    hide Linked, Distinct, Values, BodyLength, MoveChunks, AfterSplit, Cut, MoveInto, Splits;
    ghost var s := from.Contents();
    var len: nat := Budget(maxLen);
    var lastBb: Node?, fileLen: nat;
    ghost var k: nat;
    bb, lastBb, fileLen, k := ScanChunks(from, len);
    ghost var n := k;
    if bb != null {
      lastBb, n := SplitAtCut(from, len, bb, lastBb, fileLen, k);
    }
    RoundFromSplit(from.bs, s, maxLen, k, from.Contents(), n);
    NothingApart(from.spine, to.spine);
    assert lastBb == null ==> n == |from.spine|;
    ghost var nodes := from.spine;
    hide Apart, Splits;
    ListMove(from, to, lastBb, n);
    PrefixMembers(nodes, n);
  }

  /** Cutting the list at the boundary behind the last node moved gives the round. */
  lemma RoundFromSplit(bs: nat, s: seq<Block>, maxLen: nat, k: nat, t: seq<Block>, n: nat)
    requires bs > 0 && k == Cut(bs, Budget(maxLen), s, 0)
    requires n == if k < |s| && Splits(bs, Budget(maxLen), s, k) then k + 1 else k
    requires t == if k < |s| then AfterSplit(bs, s, Budget(maxLen), k) else s
    ensures n <= |t| && MoveInto([], t[..n]) == MoveChunks(bs, s, maxLen).moved
    ensures t[n..] == MoveChunks(bs, s, maxLen).rest
    ensures MoveChunks(bs, s, maxLen).more <==> k < |s|
  {
    hide BodyLength, Split, Cut, Splits, SplitRoom;
    var len := Budget(maxLen);
    if k == |s| {
      assert t[..n] == s && t[n..] == [];
    } else if Splits(bs, len, s, k) {
      var (first, rest) := Split(bs, s[k], SplitRoom(bs, len, s, k));
      CutBehind(s[..k], first, (match rest case None => [] case Some(r) => [r]), s[k + 1..], t);
    }
  }

  lemma CutBehind(a: seq<Block>, first: Block, behind: seq<Block>, b: seq<Block>, t: seq<Block>)
    requires t == a + ([first] + behind) + b
    ensures t[..|a| + 1] == a + [first] && t[|a| + 1..] == behind + b
  {
  }

  // -------------------------------------------------- sparse_file_resparse

  /** A list none of whose fields and nodes changed keeps its meaning. */
  twostate lemma KeepsList(list: List)
    requires old(list.Valid())
    requires unchanged(list) && forall n :: n in list.spine ==> unchanged(n)
    ensures list.Valid() && list.Contents() == old(list.Contents())
  {
    assert forall i :: 0 <= i < |list.spine| ==> list.spine[i] in list.spine;
    assert forall i :: 0 <= i < |list.spine| ==> list.Contents()[i] == old(list.Contents())[i];
  }

  /** Every block of t may be appended: none of s has a larger number. */
  ghost predicate UpTo(s: seq<Block>, L: nat)
  {
    forall i :: 0 <= i < |s| ==> s[i].block <= L
  }

  lemma {:induction false} MoveAppends(to: seq<Block>, block: nat, from: nat)
    requires from <= |to| && UpTo(to, block)
    ensures MovePosition(to, block, from) == |to|
    decreases |to| - from
  {
    if from < |to| {
      MoveAppends(to, block, from + 1);
    }
  }

  lemma MoveIntoAppends(to: seq<Block>, seg: seq<Block>, L: nat)
    requires UpTo(to, L) && AllFrom(seg, L)
    ensures MoveInto(to, seg) == to + seg
  {
    if to != [] && seg != [] {
      MoveAppends(to, seg[0].block, 1);
    }
  }

  /** A bound between what has been moved and what is left. */
  lemma NextBound(g: Geometry, s: seq<Block>, maxLen: nat, low: nat) returns (L: nat)
    requires g.Valid() && Ordered(g, s) && AllFrom(s, low)
    ensures var r := MoveChunks(g.bs, s, maxLen);
            low <= L && UpTo(r.moved, L) && AllFrom(r.rest, L) && Ordered(g, r.rest)
  {
    hide MoveChunks;
    RoundOrder(g, s, maxLen, low);
    var r := MoveChunks(g.bs, s, maxLen);
    if r.rest != [] {
      L := r.rest[0].block;
    } else if r.moved != [] {
      L := r.moved[|r.moved| - 1].block;
    } else {
      L := low;
    }
  }

  lemma {:induction false} FlattenAppend(files: seq<seq<Block>>, s: seq<Block>)
    ensures Flatten(files + [s]) == Flatten(files) + s
  {
    if files == [] {
      assert files + [s] == [s] && [s][1..] == [];
      assert s + [] == s;
    } else {
      assert (files + [s])[1..] == files[1..] + [s];
      FlattenAppend(files[1..], s);
      assert files[0] + (Flatten(files[1..]) + s) == files[0] + Flatten(files[1..]) + s;
    }
  }

  /** One pass of the loop body: a new file takes what fits; beyond the caller's array its
      blocks are parked in `tmp`. */
  method ResparseRound(inS: List, tmp: List, maxLen: nat, keep: bool, ghost g: Geometry, ghost low: nat)
    returns (s: List, more: bool, ghost L: nat)
    requires inS != tmp && inS.Valid() && tmp.Valid() && Apart(inS.spine, tmp.spine)
    requires g.Valid() && g.bs == inS.bs
    requires Ordered(g, inS.Contents()) && AllFrom(inS.Contents(), low) && UpTo(tmp.Contents(), low)
    modifies inS, tmp, inS.spine, tmp.spine
    ensures fresh(s) && inS.Valid() && tmp.Valid() && Apart(inS.spine, tmp.spine)
    ensures var round := MoveChunks(g.bs, old(inS.Contents()), maxLen);
            && inS.Contents() == round.rest && more == round.more
            && tmp.Contents() == old(tmp.Contents()) + (if keep then [] else round.moved)
            && (keep ==> s.Valid() && s.Contents() == round.moved)
    ensures keep ==> Apart(s.spine, inS.spine) && Apart(s.spine, tmp.spine)
    ensures Ordered(g, inS.Contents()) && AllFrom(inS.Contents(), L) && UpTo(tmp.Contents(), L)
    ensures forall n :: n in inS.spine ==> n in old(inS.spine) || fresh(n)
    ensures forall n :: n in tmp.spine ==> n in old(inS.spine) || n in old(tmp.spine) || fresh(n)
    ensures keep ==> forall n :: n in s.spine ==> n in old(inS.spine) || fresh(n)
  {
    hide Linked, Distinct, Values, MoveChunks, MoveInto, Ordered;
    L := NextBound(g, inS.Contents(), maxLen, low);
    RoundOrder(g, inS.Contents(), maxLen, low);
    s := new List(inS.bs);
    label start:
    var bb := MoveChunksUpToLen(inS, s, maxLen);
    more := bb != null;
    KeepsList@start(tmp);
    if !keep {
      forall i | 0 <= i < |s.spine| ensures s.spine[i] in old(inS.spine) || fresh(s.spine[i]) {
        assert s.spine[i] in s.spine;
      }
      forall i | 0 <= i < |tmp.spine| ensures tmp.spine[i] in old(tmp.spine) {
        assert tmp.spine[i] in tmp.spine;
      }
      Park(s, tmp, inS, low);
    }
  }

  /** Appends the blocks of a file to the parked ones; a third list is not affected. */
  method Park(s: List, tmp: List, inS: List, ghost low: nat)
    requires s != tmp && inS != s && inS != tmp && s.Valid() && tmp.Valid() && inS.Valid()
    requires Apart(s.spine, tmp.spine) && Apart(s.spine, inS.spine) && Apart(inS.spine, tmp.spine)
    requires UpTo(tmp.Contents(), low) && AllFrom(s.Contents(), low)
    modifies s, tmp, s.spine`next, tmp.spine`next
    ensures inS.Valid() && inS.spine == old(inS.spine) && inS.Contents() == old(inS.Contents())
    ensures tmp.Valid() && Apart(inS.spine, tmp.spine)
    ensures tmp.Contents() == old(tmp.Contents()) + old(s.Contents())
    ensures forall n :: n in tmp.spine ==> n in old(tmp.spine) || n in old(s.spine)
  {
    hide Linked, Distinct, Values, MoveInto, UpTo, AllFrom;
    MoveIntoAppends(tmp.Contents(), s.Contents(), low);
    assert s.Contents()[..|s.spine|] == s.Contents() && s.spine[..|s.spine|] == s.spine;
    label parked:
    ListMove(s, tmp, null, |s.spine|);
    KeepsList@parked(inS);
  }

  /** What the loop has produced: the first files are with the caller, the others parked. */
  ghost predicate Distributed(files: seq<seq<Block>>, done: seq<seq<Block>>, left: seq<seq<Block>>,
                              kept: nat, outCount: nat, parked: seq<Block>)
  {
    && files == done + left
    && kept == (if |done| < outCount then |done| else outCount)
    && parked == Flatten(done[kept..])
  }

  /** The files behind the first. */
  ghost function LeftFiles(bs: nat, s: seq<Block>, maxLen: nat): seq<seq<Block>>
    requires bs > 0 && Terminates(bs, s, maxLen)
  {
    var r := MoveChunks(bs, s, maxLen);
    if r.more then RoundProgress(bs, s, maxLen); Files(bs, r.rest, maxLen) else []
  }

  lemma DistributedStep(files: seq<seq<Block>>, done: seq<seq<Block>>, kept: nat, outCount: nat, parked: seq<Block>,
                        bs: nat, s: seq<Block>, maxLen: nat)
    requires bs > 0 && Terminates(bs, s, maxLen)
    requires Distributed(files, done, Files(bs, s, maxLen), kept, outCount, parked)
    ensures var r := MoveChunks(bs, s, maxLen);
            var left := LeftFiles(bs, s, maxLen);
            if |done| < outCount
            then Distributed(files, done + [r.moved], left, kept + 1, outCount, parked)
            else Distributed(files, done + [r.moved], left, kept, outCount, parked + r.moved)
  {
    var r := MoveChunks(bs, s, maxLen);
    var left := LeftFiles(bs, s, maxLen);
    assert Files(bs, s, maxLen) == [r.moved] + left;
    assert files == (done + [r.moved]) + left;
    if |done| < outCount {
      assert (done + [r.moved])[kept + 1..] == [] && done[kept..] == [];
    } else {
      assert (done + [r.moved])[kept..] == done[kept..] + [r.moved];
      FlattenAppend(done[kept..], r.moved);
    }
  }

  /** All lists are well formed, no node is shared, and the files handed out hold `done`. */
  ghost predicate Separate(inS: List, tmp: List, outs: seq<List>, done: seq<seq<Block>>)
    reads *
  {
    && inS != tmp && inS.Valid() && tmp.Valid() && Apart(inS.spine, tmp.spine)
    && |outs| <= |done|
    && forall k :: 0 <= k < |outs| ==>
         && outs[k] != inS && outs[k] != tmp && outs[k].Valid() && outs[k].Contents() == done[k]
         && Apart(outs[k].spine, inS.spine) && Apart(outs[k].spine, tmp.spine)
  }

  /** A round next to the files already handed out. */
  method ResparseStep(inS: List, tmp: List, outs: seq<List>, maxLen: nat, keep: bool,
                      ghost g: Geometry, ghost low: nat, ghost done: seq<seq<Block>>)
    returns (outs': seq<List>, more: bool, ghost L: nat)
    requires Separate(inS, tmp, outs, done) && (keep ==> |outs| == |done|)
    requires g.Valid() && g.bs == inS.bs
    requires Ordered(g, inS.Contents()) && AllFrom(inS.Contents(), low) && UpTo(tmp.Contents(), low)
    modifies inS, tmp, inS.spine, tmp.spine
    ensures var round := MoveChunks(g.bs, old(inS.Contents()), maxLen);
            && Separate(inS, tmp, outs', done + [round.moved])
            && |outs'| == |outs| + (if keep then 1 else 0)
            && inS.Contents() == round.rest && more == round.more
            && tmp.Contents() == (if keep then old(tmp.Contents()) else old(tmp.Contents()) + round.moved)
    ensures Ordered(g, inS.Contents()) && AllFrom(inS.Contents(), L) && UpTo(tmp.Contents(), L)
    ensures forall n :: n in inS.spine || n in tmp.spine ==> n in old(inS.spine) || n in old(tmp.spine) || fresh(n)
  {
    hide Linked, Distinct, Values, MoveChunks, Ordered, UpTo, AllFrom;
    var s: List;
    assert tmp.Contents() + [] == tmp.Contents();
    label round:
    s, more, L := ResparseRound(inS, tmp, maxLen, keep, g, low);
    forall k | 0 <= k < |outs|
      ensures outs[k].Valid() && outs[k].Contents() == done[k]
      ensures Apart(outs[k].spine, inS.spine) && Apart(outs[k].spine, tmp.spine)
    {
      KeepsList@round(outs[k]);
      assert forall n :: n in outs[k].spine ==> n !in inS.spine && n !in tmp.spine;
    }
    hide Apart;
    outs' := if keep then outs + [s] else outs;
  }

  /** The do-while loop: rounds until nothing is left. */
  method ResparseLoop(inS: List, tmp: List, maxLen: nat, outCount: nat, ghost g: Geometry) returns (outs: seq<List>, c: nat)
    requires Separate(inS, tmp, [], []) && tmp.spine == []
    requires g.Valid() && g.bs == inS.bs && Ordered(g, inS.Contents()) && Terminates(g.bs, inS.Contents(), maxLen)
    modifies inS, tmp, inS.spine
    ensures inS.spine == []
    ensures var files := Files(g.bs, old(inS.Contents()), maxLen);
            && c == |files|
            && |outs| == (if c < outCount then c else outCount)
            && Separate(inS, tmp, outs, files)
            && tmp.Contents() == Flatten(files[|outs|..])
    ensures forall n :: n in tmp.spine ==> n in old(inS.spine) || fresh(n)
  {
    hide Linked, Distinct, Values, MoveChunks, Ordered, UpTo, AllFrom, Distributed, Flatten, Files, Terminates;
    ghost var files := Files(g.bs, inS.Contents(), maxLen);
    outs, c := [], 0;
    var more := true;
    ghost var done: seq<seq<Block>>, low: nat := [], 0;
    InitiallyDistributed(files, outCount, inS.Contents());
    hide Apart;
    while more
      invariant Separate(inS, tmp, outs, done)
      invariant Ordered(g, inS.Contents()) && AllFrom(inS.Contents(), low) && UpTo(tmp.Contents(), low)
      invariant forall n :: n in inS.spine || n in tmp.spine ==> n in old(inS.spine) || fresh(n)
      invariant c == |done| && |outs| == if c < outCount then c else outCount
      invariant more ==> Terminates(g.bs, inS.Contents(), maxLen)
      invariant Distributed(files, done, if more then Files(g.bs, inS.Contents(), maxLen) else [], |outs|, outCount, tmp.Contents())
      invariant !more ==> inS.spine == []
      decreases more, TotalLen(inS.Contents()), |inS.Contents()|
    {
      ghost var s0 := inS.Contents();
      DistributedStep(files, done, |outs|, outCount, tmp.Contents(), g.bs, s0, maxLen);
      if MoveChunks(g.bs, s0, maxLen).more {
        RoundProgress(g.bs, s0, maxLen);
      } else {
        LastRoundTakesAll(g.bs, s0, maxLen);
      }
      MembersByIndex(inS.spine);
      MembersByIndex(tmp.spine);
      outs, more, low := ResparseStep(inS, tmp, outs, maxLen, c < outCount, g, low, done);
      done := done + [MoveChunks(g.bs, s0, maxLen).moved];
      c := c + 1;
      hide Separate;
    }
    AllDistributed(files, done, |outs|, outCount, tmp.Contents());
  }

  /** sparse_file_resparse: splits the file into files below max_len. The first outCount of
      them are returned; the blocks of the others are back in the input list. */
  method SparseFileResparse(inS: List, maxLen: nat, outCount: nat, ghost g: Geometry)
    returns (outs: seq<List>, c: nat)
    requires inS.Valid() && g.Valid() && g.bs == inS.bs
    requires Ordered(g, inS.Contents()) && Terminates(g.bs, inS.Contents(), maxLen)
    modifies inS, inS.spine
    ensures inS.Valid()
    ensures var files := Files(g.bs, old(inS.Contents()), maxLen);
            && c == |files|
            && |outs| == (if c < outCount then c else outCount)
            && (forall k :: 0 <= k < |outs| ==> outs[k].Valid() && outs[k].Contents() == files[k])
            && inS.Contents() == Flatten(files[|outs|..])
  {
    hide Linked, Distinct, Values, Ordered, Flatten, Files, Terminates;
    ghost var files := Files(g.bs, inS.Contents(), maxLen);
    var tmp := new List(inS.bs);
    outs, c := ResparseLoop(inS, tmp, maxLen, outCount, g);
    MembersByIndex(tmp.spine);
    PutBack(tmp, inS, outs, files);
  }

  /** The parked blocks go back into the empty input list. */
  method PutBack(tmp: List, inS: List, outs: seq<List>, ghost files: seq<seq<Block>>)
    requires Separate(inS, tmp, outs, files) && inS.spine == []
    modifies tmp, inS, tmp.spine`next
    ensures inS.Valid() && inS.Contents() == old(tmp.Contents())
    ensures forall k :: 0 <= k < |outs| ==> outs[k].Valid() && outs[k].Contents() == files[k]
  {
    hide Linked, Distinct, Values;
    ghost var parked := tmp.Contents();
    assert parked[..|tmp.spine|] == parked && MoveInto([], parked) == parked;
    label last:
    ListMove(tmp, inS, null, |tmp.spine|);
    forall k | 0 <= k < |outs| ensures outs[k].Valid() && outs[k].Contents() == files[k] {
      KeepsList@last(outs[k]);
    }
  }

  lemma AllDistributed(files: seq<seq<Block>>, done: seq<seq<Block>>, kept: nat, outCount: nat, parked: seq<Block>)
    requires Distributed(files, done, [], kept, outCount, parked)
    ensures done == files && parked == Flatten(files[kept..])
  {
    assert done + [] == done;
  }

  lemma MembersByIndex(nodes: seq<Node>)
    ensures forall i :: 0 <= i < |nodes| ==> nodes[i] in nodes
  {
  }

  lemma InitiallyDistributed(files: seq<seq<Block>>, outCount: nat, s: seq<Block>)
    ensures Distributed(files, [], files, 0, outCount, [])
    ensures AllFrom(s, 0) && UpTo([], 0)
  {
  }
}
