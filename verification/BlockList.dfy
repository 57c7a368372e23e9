/** The linked list of backed blocks: nodes, the head pointer and the last_used search hint,
    updated in place. `spine` is the list of nodes reachable from the head. */
module BlockList {
  import opened Words
  import opened Blocks
  import opened Queue

  /** struct backed_block: its data fields and the link. */
  class Node {
    var val: Block
    var next: Node?

    constructor (b: Block)
      ensures val == b && next == null
    {
      val, next := b, null;
    }
  }

  /** The values held by a sequence of nodes. */
  ghost function Values(nodes: seq<Node>): (r: seq<Block>)
    reads nodes`val
    ensures |r| == |nodes|
    ensures forall i :: 0 <= i < |nodes| ==> r[i] == nodes[i].val
  {
    if nodes == [] then [] else [nodes[0].val] + Values(nodes[1..])
  }

  ghost predicate Distinct(nodes: seq<Node>)
  {
    forall i, j :: 0 <= i < j < |nodes| ==> nodes[i] != nodes[j]
  }

  /** The successor of node i in the chain. */
  ghost function After(nodes: seq<Node>, i: nat): Node?
  {
    if i + 1 < |nodes| then nodes[i + 1] else null
  }

  /** Each node points to the next one, the last one to null. */
  ghost predicate Linked(nodes: seq<Node>)
    reads nodes`next
  {
    forall i :: 0 <= i < |nodes| ==> nodes[i].next == After(nodes, i)
  }

  // Sequences with one element taken out or put in, by index.

  lemma Removed<T>(was: seq<T>, i: nat) returns (now: seq<T>)
    requires i < |was|
    ensures now == was[..i] + was[i + 1..] && |now| == |was| - 1
    ensures forall k :: 0 <= k < i ==> now[k] == was[k]
    ensures forall k :: i <= k < |now| ==> now[k] == was[k + 1]
    ensures forall x :: x in now ==> x in was
  {
    now := was[..i] + was[i + 1..];
  }

  lemma Grown<T>(was: seq<T>, x: T, p: nat) returns (now: seq<T>)
    requires p <= |was|
    ensures now == was[..p] + [x] + was[p..] && |now| == |was| + 1 && now[p] == x
    ensures forall k :: 0 <= k < p ==> now[k] == was[k]
    ensures forall k :: p < k < |now| ==> now[k] == was[k - 1]
    ensures forall y :: y in now <==> y in was || y == x
  {
    assert was == was[..p] + was[p..];
    now := was[..p] + [x] + was[p..];
  }

  lemma GrownPointwise(was: seq<Block>, now: seq<Block>, x: Block, p: nat)
    requires p <= |was| && |now| == |was| + 1 && now[p] == x
    requires forall k :: 0 <= k < p ==> now[k] == was[k]
    requires forall k :: p < k < |now| ==> now[k] == was[k - 1]
    ensures now == InsertAt(was, x, p)
  {
    var expected := was[..p] + [x] + was[p..];
    forall k | 0 <= k < |now| ensures now[k] == expected[k] {
    }
  }

  /** Consecutive nodes are linked; where the last one points does not matter. */
  ghost predicate Connected(nodes: seq<Node>)
    reads nodes`next
  {
    forall i :: 0 <= i < |nodes| - 1 ==> nodes[i].next == After(nodes, i)
  }

  ghost predicate Apart(p: seq<Node>, q: seq<Node>)
  {
    forall n :: n in p ==> n !in q
  }

  /** Where backed_block_list_move puts a segment into a non-empty list: in front of the first
      later node with a larger block number. */
  function MovePosition(s: seq<Block>, block: nat, from: nat): (p: nat)
    requires from <= |s|
    ensures from <= p <= |s|
    decreases |s| - from
  {
    if from < |s| && s[from].block <= block then MovePosition(s, block, from + 1) else from
  }

  function MoveInto(to: seq<Block>, seg: seq<Block>): seq<Block>
  {
    if seg == [] then to
    else if to == [] then seg
    else
      var q := MovePosition(to, seg[0].block, 1);
      to[..q] + seg + to[q..]
  }

  /** The index correspondence of a segment put in at q. */
  lemma Widened<T>(was: seq<T>, seg: seq<T>, q: nat) returns (now: seq<T>)
    requires q <= |was|
    ensures now == was[..q] + seg + was[q..] && |now| == |was| + |seg|
    ensures forall k :: 0 <= k < q ==> now[k] == was[k]
    ensures forall k :: q <= k < q + |seg| ==> now[k] == seg[k - q]
    ensures forall k :: q + |seg| <= k < |now| ==> now[k] == was[k - |seg|]
  {
    now := was[..q] + seg + was[q..];
  }

  lemma {:induction false} ValuesSlice(nodes: seq<Node>, i: nat, j: nat)
    requires i <= j <= |nodes|
    ensures Values(nodes[i..j]) == Values(nodes)[i..j]
  {
    assert forall k :: 0 <= k < j - i ==> Values(nodes[i..j])[k] == nodes[i + k].val;
  }

  lemma ValuesConcat(p: seq<Node>, q: seq<Node>)
    ensures Values(p + q) == Values(p) + Values(q)
  {
  }

  lemma ValuesRemoved(nodes: seq<Node>, i: nat)
    requires i < |nodes|
    ensures Values(nodes[..i] + nodes[i + 1..]) == Values(nodes)[..i] + Values(nodes)[i + 1..]
  {
    hide Values;
    var v, w := Values(nodes[..i] + nodes[i + 1..]), Values(nodes)[..i] + Values(nodes)[i + 1..];
    forall k | 0 <= k < |w| ensures v[k] == w[k] {
      assert (nodes[..i] + nodes[i + 1..])[k] == nodes[if k < i then k else k + 1];
    }
  }

  lemma SetBefore(was: seq<Block>, i: nat, m: Block)
    requires i + 1 < |was|
    ensures (was[..i + 1] + was[i + 2..])[i := m] == was[..i] + [m] + was[i + 2..]
  {
  }

  lemma OnlyAt(nodes: seq<Node>, i: nat)
    requires Distinct(nodes) && i < |nodes|
    ensures forall k :: 0 <= k < |nodes| && k != i ==> nodes[k] != nodes[i]
  {
  }

  class List {
    var dataBlocks: Node?
    var lastUsed: Node?
    const bs: nat
    ghost var spine: seq<Node>

    constructor (blockSize: nat)
      requires blockSize > 0
      ensures Valid() && spine == [] && bs == blockSize
    {
      dataBlocks, lastUsed, bs, spine := null, null, blockSize, [];
    }

    /** The head pointer starts the chain of nodes in `spine`. */
    ghost predicate Chained()
      reads this`spine, this`dataBlocks, spine`next
    {
      && bs > 0
      && Distinct(spine)
      && Linked(spine)
      && dataBlocks == if spine == [] then null else spine[0]
    }

    /** ... and last_used is null or a live node of the list. */
    ghost predicate Valid()
      reads this`spine, this`dataBlocks, this`lastUsed, spine`next
    {
      Chained() && (lastUsed != null ==> lastUsed in spine)
    }

    ghost function Contents(): seq<Block>
      reads this`spine, spine`val
    {
      Values(spine)
    }

    /** Unlinks the successor b of node a. */
    method UnlinkNext(a: Node, b: Node, ghost i: nat)
      requires Chained() && i + 1 < |spine| && spine[i] == a && spine[i + 1] == b
      modifies a`next, this`spine
      ensures Chained() && |spine| == |old(spine)| - 1
      ensures forall k :: 0 <= k <= i ==> spine[k] == old(spine)[k]
      ensures forall k :: i < k < |spine| ==> spine[k] == old(spine)[k + 1]
      ensures forall n :: n in spine ==> n in old(spine)
      ensures spine == old(spine)[..i + 1] + old(spine)[i + 2..]
    {
      ghost var nodes := spine;
      a.next := b.next;
      spine := Removed(nodes, i + 1);
      forall k | 0 <= k < |spine| ensures spine[k].next == After(spine, k) {
        assert spine[k] == nodes[if k <= i then k else k + 1];
      }
    }

    /** merge_bb: joins b into a and unlinks b when they are compatible and adjacent. */
    method MergeBb(a: Node, b: Node?, ghost i: nat) returns (merged: bool)
      requires Chained() && i < |spine| && spine[i] == a
      requires b != null ==> i + 1 < |spine| && b == spine[i + 1] && a.val.block < b.val.block
      requires b == null ==> i + 1 == |spine|
      modifies a, this`spine
      ensures Chained() && a.val.block == old(a.val.block) && i < |spine|
      ensures !merged ==> spine == old(spine)
      ensures merged ==> |spine| == |old(spine)| - 1
      ensures forall k :: 0 <= k <= i ==> spine[k] == old(spine)[k]
      ensures forall n :: n in spine ==> n in old(spine)
      ensures Contents() == Coalesce(bs, old(Contents()), i)
    {
      if b == null {
        return false;
      }
      var joined := Merge(bs, a.val, b.val);
      if joined.None? {
        return false;
      }
      MergedValue(bs, a.val, b.val);
      JoinNext(a, b, joined.value, i);
      return true;
    }

    /** The successor b of node a goes, and a holds m. */
    method JoinNext(a: Node, b: Node, m: Block, ghost i: nat)
      requires Chained() && i + 1 < |spine| && spine[i] == a && spine[i + 1] == b
      modifies a, this`spine
      ensures Chained() && |spine| == |old(spine)| - 1 && a.val == m
      ensures forall k :: 0 <= k <= i ==> spine[k] == old(spine)[k]
      ensures forall n :: n in spine ==> n in old(spine)
      ensures Contents() == old(Contents())[..i] + [m] + old(Contents())[i + 2..]
    {
      hide Linked, Distinct, Values;
      ghost var was := Contents();
      ValuesRemoved(spine, i + 1);
      UnlinkNext(a, b, i);
      SetValue(a, m, i);
      SetBefore(was, i, m);
    }

    method SetValue(a: Node, m: Block, ghost i: nat)
      requires Chained() && i < |spine| && spine[i] == a
      modifies a`val
      ensures a.val == m && Contents() == old(Contents())[i := m]
    {
      hide Linked, Values;
      ghost var was := Contents();
      OnlyAt(spine, i);
      hide Distinct;
      a.val := m;
      forall k | 0 <= k < |spine| ensures Contents()[k] == was[i := m][k] {
      }
    }

    /** Links nb in behind node p - 1. */
    method InsertBehind(bb: Node, nb: Node, ghost p: nat)
      requires Chained() && 1 <= p <= |spine| && spine[p - 1] == bb
      requires nb !in spine && nb.next == null
      modifies bb`next, nb`next, this`spine
      ensures Chained() && |spine| == |old(spine)| + 1
      ensures spine[p] == nb && spine[p - 1] == bb
      ensures forall k :: 0 <= k < p ==> spine[k] == old(spine)[k]
      ensures forall k :: p < k < |spine| ==> spine[k] == old(spine)[k - 1]
      ensures forall n :: n in spine <==> n in old(spine) || n == nb
    {
      ghost var nodes := spine;
      if bb.next == null {
        bb.next := nb;
      } else {
        nb.next := bb.next;
        bb.next := nb;
      }
      spine := Grown(nodes, nb, p);
    }

    /** Makes nb the first node. */
    method InsertHead(nb: Node)
      requires Chained() && nb !in spine && nb.next == null
      modifies nb`next, this`spine, this`dataBlocks
      ensures Chained() && Contents() == [nb.val] + old(Contents())
      ensures forall n :: n in spine <==> n in old(spine) || n == nb
    {
      nb.next := dataBlocks;
      dataBlocks := nb;
      spine := [nb] + spine;
    }

    lemma NextOf(i: nat)
      requires Chained() && i < |spine|
      ensures spine[i].next == After(spine, i)
    {
    }

    /** The search loop of queue_bb, from the node at index `from`. */
    method Locate(start: Node, block: nat, ghost from: nat) returns (bb: Node, ghost p: nat)
      requires Chained() && from < |spine| && spine[from] == start
      ensures p == Position(Contents(), block, from + 1) && 1 <= p <= |spine| && spine[p - 1] == bb
    {
      hide Linked, Distinct, Values;
      bb, p := start, from + 1;
      ghost var s := Contents();
      while bb.next != null && bb.next.val.block < block
        invariant 1 <= p <= |spine| && spine[p - 1] == bb
        invariant Position(s, block, p) == Position(s, block, from + 1)
        decreases |spine| - p
      {
        NextOf(p - 1);
        bb, p := bb.next, p + 1;
      }
      NextOf(p - 1);
    }

    /** The start of the search: last_used when it lies before the new block. */
    method SearchStart(block: nat) returns (bb: Node, ghost from: nat)
      requires Valid() && spine != []
      ensures from < |spine| && spine[from] == bb
      ensures from == 0 || spine[from].val.block < block
    {
      if lastUsed != null && block > lastUsed.val.block {
        bb := lastUsed;
        from :| 0 <= from < |spine| && spine[from] == bb;
      } else {
        bb, from := dataBlocks, 0;
      }
    }

    /** Insertion behind bb, merging with both neighbours, and the update of last_used. */
    method InsertMerging(bb: Node, nb: Node, ghost p: nat)
      requires Chained() && 1 <= p <= |spine| && spine[p - 1] == bb
      requires nb !in spine && nb.next == null
      requires bb.val.block < nb.val.block && (p < |spine| ==> nb.val.block < spine[p].val.block)
      modifies this, nb, spine
      ensures Valid()
      ensures Contents() == Coalesce(bs, Coalesce(bs, InsertAt(old(Contents()), old(nb.val), p), p), p - 1)
      ensures forall n :: n in spine ==> n in old(spine) || n == nb
    {
      hide Linked, Distinct, Coalesce, Values;
      ghost var s, b := Contents(), nb.val;
      lastUsed := nb;
      InsertBehind(bb, nb, p);
      GrownPointwise(s, Contents(), b, p);
      MergeBoth(bb, nb, p);
    }

    /** Merging of the new node with its successor, then of its predecessor with it. */
    method MergeBoth(bb: Node, nb: Node, ghost p: nat)
      requires Chained() && 1 <= p < |spine| && spine[p - 1] == bb && spine[p] == nb && lastUsed == nb
      requires bb.val.block < nb.val.block && (p + 1 < |spine| ==> nb.val.block < spine[p + 1].val.block)
      modifies this`spine, this`lastUsed, bb, nb
      ensures Valid()
      ensures Contents() == Coalesce(bs, Coalesce(bs, old(Contents()), p), p - 1)
      ensures forall n :: n in spine ==> n in old(spine)
    {
      hide Linked, Distinct, Coalesce, Values;
      NextOf(p);
      var _ := MergeBb(nb, nb.next, p);
      var merged := MergeBb(bb, nb, p - 1);
      assert spine[p - 1] == bb;
      if merged {
        lastUsed := bb;
      } else {
        assert spine[p] == nb;
      }
    }

    /** Finds the node behind which b belongs; the hint only shortens the search. */
    method FindPlace(b: Block, ghost g: Geometry, ghost size: nat) returns (bb: Node, ghost p: nat)
      requires Valid() && spine != [] && spine[0].val.block <= b.block
      requires g.Valid() && g.bs == bs && StrictlyOrdered(g, Contents())
      requires Inside(g, Contents() + [b], size) && Unused(g, Contents(), b)
      ensures p == Position(Contents(), b.block, 1) && 1 <= p <= |spine| && spine[p - 1] == bb
      ensures bb.val.block < b.block && (p < |spine| ==> b.block < spine[p].val.block)
    {
      hide Linked, Distinct, StrictlyOrdered, Inside, Unused;
      var start, from := SearchStart(b.block);
      bb, p := Locate(start, b.block, from);
      ghost var s := Contents();
      if from > 0 {
        HintIrrelevant(g, s, b.block, from + 1);
      }
      var p' := InsertPosition(g, s, b, size);
      InsertedNeighbours(g, s, b, p, size);
    }

    /** queue_bb: whatever last_used points to, the list becomes Enqueue of the old one. */
    method QueueBb(nb: Node, ghost g: Geometry, ghost size: nat)
      requires Valid() && nb !in spine && nb.next == null
      requires g.Valid() && g.bs == bs && StrictlyOrdered(g, Contents())
      requires Inside(g, Contents() + [nb.val], size)
      requires Unused(g, Contents(), nb.val)
      modifies this, nb, spine
      ensures Valid()
      ensures Contents() == Enqueue(bs, old(Contents()), old(nb.val))
      ensures forall n :: n in spine ==> n in old(spine) || n == nb
    {
      hide Coalesce, StrictlyOrdered, Inside, Unused, Position;
      if dataBlocks == null {
        dataBlocks := nb;
        spine := [nb];
        assert Contents() == [nb.val];
        return;
      }
      hide Linked, Distinct;
      if dataBlocks.val.block > nb.val.block {
        InsertHead(nb);
        return;
      }
      var bb, p := FindPlace(nb.val, g, size);
      InsertMerging(bb, nb, p);
    }

    // ------------------------------------------------------ split and move

    /** The node keeps `first`; a new node behind it gets `rest`. */
    method Divide(bb: Node, first: Block, rest: Block, ghost i: nat)
      requires Chained() && i < |spine| && spine[i] == bb
      modifies bb, this`spine
      ensures Chained() && |spine| == |old(spine)| + 1
      ensures forall n :: n in old(spine) ==> n in spine
      ensures forall n :: n in spine ==> n in old(spine) || fresh(n)
      ensures forall k :: 0 <= k <= i ==> spine[k] == old(spine)[k]
      ensures Contents() == old(Contents()[..i] + ([first] + [rest]) + Contents()[i + 1..])
    {
      hide Linked;
      ghost var s := Contents();
      var newBb := new Node(rest);
      InsertBehind(bb, newBb, i + 1);
      assert forall k :: 0 <= k < |spine| && k != i ==> spine[k] != bb;
      hide Distinct;
      bb.val := first;
      SplitPointwise(s, Contents(), i, first, rest);
    }

    /** backed_block_split: the node is replaced by its pieces. */
    method SplitBb(bb: Node, maxLen: nat, ghost i: nat)
      requires Valid() && i < |spine| && spine[i] == bb
      modifies bb, this`spine
      ensures Valid() && |spine| >= |old(spine)|
      ensures forall n :: n in spine ==> n in old(spine) || fresh(n)
      ensures forall k :: 0 <= k <= i ==> spine[k] == old(spine)[k]
      ensures Contents() == old(Contents()[..i] + Pieces(bs, Contents()[i], maxLen) + Contents()[i + 1..])
    {
      hide Linked, Distinct;
      var (first, rest) := Split(bs, bb.val, maxLen);
      match rest {
        case None => ReplacedBySelf(Contents(), i);
        case Some(r) => Divide(bb, first, r, i);
      }
    }

    /** Takes the first k nodes off the list. */
    method TakeFront(end: Node, ghost k: nat)
      requires Chained() && 1 <= k <= |spine| && spine[k - 1] == end
      modifies this
      ensures Valid() && lastUsed == null && spine == old(spine)[k..]
    {
      ghost var nodes := spine;
      lastUsed := null;
      NextOf(k - 1);
      dataBlocks := end.next;
      spine := nodes[k..];
      assert forall i :: 0 <= i < |spine| ==> spine[i] == nodes[k + i];
    }

    /** Links a connected segment in behind node q - 1. */
    method LinkSegment(bb: Node, start: Node, end: Node, ghost seg: seq<Node>, ghost q: nat)
      requires Chained() && Connected(seg) && Distinct(seg) && Apart(seg, spine)
      requires seg != [] && seg[0] == start && seg[|seg| - 1] == end
      requires 1 <= q <= |spine| && spine[q - 1] == bb
      modifies bb`next, end`next, this`spine
      ensures Chained() && spine == old(spine)[..q] + seg + old(spine)[q..]
    {
      ghost var nodes := spine;
      SpliceApart(nodes, seg, q);
      hide Distinct, Apart;
      end.next := bb.next;
      bb.next := start;
      spine := Widened(nodes, seg, q);
      forall k | 0 <= k < |spine| ensures spine[k].next == After(spine, k) {
        if k < q - 1 {
          assert spine[k] == nodes[k];
        } else if q <= k < q + |seg| - 1 {
          assert spine[k] == seg[k - q];
        } else if k >= q + |seg| {
          assert spine[k] == nodes[k - |seg|];
        }
      }
    }

    /** An empty list takes over a connected segment. */
    method AdoptSegment(start: Node, end: Node, ghost seg: seq<Node>)
      requires bs > 0 && Connected(seg) && Distinct(seg)
      requires seg != [] && seg[0] == start && seg[|seg| - 1] == end
      modifies this`dataBlocks, this`spine, end`next
      ensures Chained() && spine == seg
    {
      dataBlocks := start;
      end.next := null;
      spine := seg;
    }

    /** Puts a connected segment into the list. */
    method PutSegment(start: Node, end: Node, ghost seg: seq<Node>)
      requires Chained() && Connected(seg) && Distinct(seg) && Apart(seg, spine)
      requires seg != [] && seg[0] == start && seg[|seg| - 1] == end
      modifies this, spine`next, end`next
      ensures Valid() && lastUsed == null
      ensures Contents() == MoveInto(old(Contents()), old(Values(seg)))
      ensures forall n :: n in spine <==> n in old(spine) || n in seg
    {
      hide Linked, Distinct, Connected, Values;
      lastUsed := null;
      if dataBlocks == null {
        AdoptSegment(start, end, seg);
        return;
      }
      ghost var nodes, s, v := spine, Contents(), Values(seg);
      var bb, q := PutPlace(start.val.block);
      MoveIntoMiddle(s, v, q);
      hide MoveInto;
      LinkSegment(bb, start, end, seg, q);
      PutMembers(nodes, seg, spine, q);
      ValuesWidened(nodes, seg, q);
    }

    /** The search loop of backed_block_list_move. */
    method PutPlace(block: nat) returns (bb: Node, ghost q: nat)
      requires Chained() && dataBlocks != null
      ensures q == MovePosition(Contents(), block, 1) && 1 <= q <= |spine| && spine[q - 1] == bb
      ensures bb.next == After(spine, q - 1)
    {
      hide Linked, Distinct;
      bb, q := dataBlocks, 1;
      ghost var s := Contents();
      NextOf(0);
      while !(bb.next == null || bb.next.val.block > block)
        invariant 1 <= q <= |spine| && spine[q - 1] == bb && bb.next == After(spine, q - 1)
        invariant MovePosition(s, block, q) == MovePosition(s, block, 1)
        decreases |spine| - q
      {
        bb, q := bb.next, q + 1;
        NextOf(q - 1);
      }
    }
  }

  lemma ValuesWidened(nodes: seq<Node>, seg: seq<Node>, q: nat)
    requires q <= |nodes|
    ensures Values(nodes[..q] + seg + nodes[q..]) == Values(nodes)[..q] + Values(seg) + Values(nodes)[q..]
  {
    ValuesConcat(nodes[..q] + seg, nodes[q..]);
    ValuesConcat(nodes[..q], seg);
    ValuesSlice(nodes, 0, q);
    ValuesSlice(nodes, q, |nodes|);
  }

  lemma MoveIntoMiddle(to: seq<Block>, seg: seq<Block>, q: nat)
    requires to != [] && seg != [] && q == MovePosition(to, seg[0].block, 1)
    ensures MoveInto(to, seg) == to[..q] + seg + to[q..]
  {
  }

  lemma ReplacedBySelf(s: seq<Block>, i: nat)
    requires i < |s|
    ensures s == s[..i] + [s[i]] + s[i + 1..]
  {
  }

  lemma SplitPointwise(was: seq<Block>, now: seq<Block>, i: nat, first: Block, rest: Block)
    requires i < |was| && |now| == |was| + 1 && now[i] == first && now[i + 1] == rest
    requires forall k :: 0 <= k < i ==> now[k] == was[k]
    requires forall k :: i + 1 < k < |now| ==> now[k] == was[k - 1]
    ensures now == was[..i] + ([first] + [rest]) + was[i + 1..]
  {
    var expected := was[..i] + ([first] + [rest]) + was[i + 1..];
    forall k | 0 <= k < |now| ensures now[k] == expected[k] {
    }
  }

  lemma WidenedDistinct(nodes: seq<Node>, seg: seq<Node>, now: seq<Node>, q: nat)
    requires q <= |nodes| && now == nodes[..q] + seg + nodes[q..]
    requires Distinct(nodes) && Distinct(seg) && Apart(seg, nodes)
    ensures Distinct(now)
  {
    var w := Widened(nodes, seg, q);
    forall i, j | 0 <= i < j < |now| ensures now[i] != now[j] {
      if q <= i < q + |seg| {
        assert now[i] in seg;
      }
      if q <= j < q + |seg| {
        assert now[j] in seg;
      }
    }
  }

  /** The nodes whose links change are met nowhere else, and the spliced list has no repetition. */
  lemma SpliceApart(nodes: seq<Node>, seg: seq<Node>, q: nat)
    requires Distinct(nodes) && Distinct(seg) && Apart(seg, nodes) && seg != [] && 1 <= q <= |nodes|
    ensures forall k :: 0 <= k < |nodes| ==> nodes[k] != seg[|seg| - 1] && (k != q - 1 ==> nodes[k] != nodes[q - 1])
    ensures forall k :: 0 <= k < |seg| ==> seg[k] != nodes[q - 1] && (k != |seg| - 1 ==> seg[k] != seg[|seg| - 1])
    ensures Distinct(nodes[..q] + seg + nodes[q..])
  {
    OnlyAt(nodes, q - 1);
    OnlyAt(seg, |seg| - 1);
    assert forall k :: 0 <= k < |seg| ==> seg[k] in seg;
    WidenedDistinct(nodes, seg, nodes[..q] + seg + nodes[q..], q);
  }

  lemma PutMembers(nodes: seq<Node>, seg: seq<Node>, now: seq<Node>, q: nat)
    requires q <= |nodes| && now == nodes[..q] + seg + nodes[q..]
    ensures forall n :: n in now <==> n in nodes || n in seg
  {
    assert nodes == nodes[..q] + nodes[q..];
  }

  lemma InsertedNeighbours(g: Geometry, s: seq<Block>, b: Block, p: nat, size: nat)
    requires g.Valid() && StrictlyOrdered(g, s) && Inside(g, s + [b], size) && Unused(g, s, b)
    requires 1 <= p <= |s|
    requires forall i :: 0 <= i < p ==> s[i].block < b.block
    requires forall i :: p <= i < |s| ==> s[i].block >= b.block
    ensures s[p - 1].block < b.block && (p < |s| ==> b.block < s[p].block)
  {
    InsertKeepsOrder(g, s, b, p, size);
    var t := InsertAt(s, b, p);
    assert t[p] == b && (p < |s| ==> t[p + 1] == s[p]);
  }
}
