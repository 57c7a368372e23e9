/** Exactly which sequences of adds keep every byte. A block added in front of the whole list is not
    merged with what follows it, so a run of one source is merged up to such seams only. */
module Adds {
  import opened Words
  import opened Blocks
  import opened Queue

  // ------------------------------------------------------------------- seams

  /** Add n came in front of everything added before it, and ends where an earlier add starts. */
  ghost predicate SeamBy(g: Geometry, adds: seq<Block>, n: nat, x: int)
    requires n < |adds|
  {
    && End(g, adds[n]) == x
    && (forall m :: 0 <= m < n ==> adds[n].block < adds[m].block)
    && exists m :: 0 <= m < n && Start(g, adds[m]) == x
  }

  /** No merge joins what ends at x with what starts there. */
  ghost predicate Seam(g: Geometry, adds: seq<Block>, x: int)
  {
    exists n :: 0 <= n < |adds| && SeamBy(g, adds, n, x)
  }

  ghost predicate Seamless(g: Geometry, adds: seq<Block>, lo: int, hi: int)
  {
    forall x :: lo < x < hi ==> !Seam(g, adds, x)
  }

  /** No run of one source between two seams reaches 2^32 bytes. */
  ghost predicate MergedRunsBelow(g: Geometry, adds: seq<Block>)
  {
    forall src, lo, hi :: RunOf(g, adds, src, lo, hi) && Seamless(g, adds, lo, hi) ==> hi - lo < B32
  }

  /** An add behind the first of its predecessors makes no seam. */
  lemma SeamNext(g: Geometry, adds: seq<Block>, b: Block, x: int)
    ensures Seam(g, adds + [b], x) <==> Seam(g, adds, x) || SeamBy(g, adds + [b], |adds|, x)
  {
    var next := adds + [b];
    forall n | 0 <= n < |adds| ensures SeamBy(g, next, n, x) <==> SeamBy(g, adds, n, x) {
      assert next[n] == adds[n];
      assert forall m :: 0 <= m < n ==> next[m] == adds[m];
    }
    if Seam(g, adds, x) {
      var n :| 0 <= n < |adds| && SeamBy(g, adds, n, x);
      assert SeamBy(g, next, n, x);
    }
  }

  // ------------------------------------------------ blocks of unbounded length

  /** A block with the length it would have if lengths were unbounded: the same as long as that
      fits 32 bits, and otherwise less. */
  ghost predicate Shadow(t: Block, full: Block)
  {
    && t.block == full.block && t.backing == full.backing && t.len <= full.len
    && (t.len == full.len <==> full.len < B32) && (full.backing.Data? ==> full.len < B32)
  }

  ghost predicate Shadows(t: seq<Block>, fulls: seq<Block>)
  {
    |t| == |fulls| && forall i :: 0 <= i < |t| ==> Shadow(t[i], fulls[i])
  }

  function Joined(a: Block, b: Block): Block
  {
    Block(a.block, a.len + b.len, a.backing)
  }

  /** Neighbours that are merged touch, because the first is as long as it should be, and their
      sources continue. */
  lemma MergedNeighbours(g: Geometry, a: Block, b: Block, fullA: Block, fullB: Block)
    requires g.Valid() && Shadow(a, fullA) && Shadow(b, fullB) && Before(g, fullA, fullB) && fullB.len > 0
    requires Merge(g.bs, a, b).Some?
    ensures a == fullA && End(g, fullA) == Start(g, fullB) && SourceOf(g, fullA) == SourceOf(g, fullB) != None
    ensures b.backing == a.backing.Advance(a.len) && (a.backing.Fill? ==> a.len % 4 == 0)
    ensures Shadow(Merge(g.bs, a, b).value, Joined(fullA, fullB))
  {
    MergeTouches(g, a, b);
    MergedValue(g.bs, a, b);
    hide Merge;
    SumWraps(a.len, b.len, fullB.len);
  }

  lemma SumWraps(x: nat, y: nat, full: nat)
    requires x < B32 && y <= full && (y == full <==> full < B32)
    ensures (x + y) % B32 <= x + full && ((x + y) % B32 == x + full <==> x + full < B32)
  {
  }

  /** Blocks of one source that touch are merged. */
  lemma SameSourceMerges(g: Geometry, a: Block, b: Block)
    requires g.Valid() && SourceOf(g, a).Some? && SourceOf(g, a) == SourceOf(g, b) && End(g, a) == Start(g, b)
    ensures Merge(g.bs, a, b).Some?
  {
    BlocksBetween(g.bs, a.block, b.block, a.len);
  }

  lemma BlocksBetween(bs: nat, p: nat, q: nat, len: nat)
    requires bs > 0 && p * bs + len == q * bs
    ensures p + len / bs == q
  {
    BlockOrder(q, p, bs);
    assert len == (q - p) * bs;
    if q < p {
      BlockOrder(q, p, bs);
    } else {
      QuotientOfMultiple(q - p, bs);
    }
  }

  /** Joining touching blocks of one source keeps every byte. */
  lemma JoinContent(g: Geometry, a: Block, b: Block, o: int)
    requires g.Valid() && End(g, a) == Start(g, b) && b.backing == a.backing.Advance(a.len)
    requires a.backing.Fill? ==> a.len % 4 == 0
    ensures ByteOf(g, Joined(a, b), o) == Or(ByteOf(g, a, o), ByteOf(g, b, o))
  {
    if Covers(g, b, o) {
      ByteAtAdvance(g.st, a.backing, a.len, o - Start(g, b));
    }
  }

  // ---------------------------------------------------------- the invariant

  ghost predicate SameSupply(g: Geometry, s: seq<Block>, t: seq<Block>)
  {
    Within(g, s, t) && Within(g, t, s)
  }

  ghost predicate SameContent(g: Geometry, s: seq<Block>, t: seq<Block>)
  {
    forall o :: At(g, s, o) == At(g, t, o)
  }

  ghost predicate NoSeamInside(g: Geometry, adds: seq<Block>, s: seq<Block>)
  {
    forall i :: 0 <= i < |s| ==> Seamless(g, adds, Start(g, s[i]), End(g, s[i]))
  }

  /** Blocks i and i + 1 touch and could be merged. */
  ghost predicate Mergeable(g: Geometry, s: seq<Block>, i: nat)
    requires i + 1 < |s|
  {
    s[i].len < B32 && SourceOf(g, s[i]).Some? && SourceOf(g, s[i]) == SourceOf(g, s[i + 1]) && End(g, s[i]) == Start(g, s[i + 1])
  }

  /** What could be merged is, except at seams, and at x and y. */
  ghost predicate ApartBut(g: Geometry, adds: seq<Block>, s: seq<Block>, x: int, y: int)
  {
    forall i :: 0 <= i < |s| - 1 && Mergeable(g, s, i) ==> Seam(g, adds, End(g, s[i])) || End(g, s[i]) == x || End(g, s[i]) == y
  }

  /** How the list after some adds relates to the list with unbounded lengths. */
  ghost predicate Follows(g: Geometry, adds: seq<Block>, t: seq<Block>, fulls: seq<Block>, size: nat)
  {
    && Shadows(t, fulls) && StrictlyOrdered(g, fulls) && Inside(g, fulls, size)
    && SameSupply(g, fulls, adds) && SameContent(g, fulls, adds) && NoSeamInside(g, adds, fulls)
  }

  // ------------------------------------------------------------------ a merge

  /** coalescing with unbounded lengths, where the code merges. */
  ghost function CoalesceFull(bs: nat, t: seq<Block>, fulls: seq<Block>, i: nat): seq<Block>
    requires bs > 0 && |t| == |fulls|
  {
    if i + 1 < |t| && Merge(bs, t[i], t[i + 1]).Some? then fulls[..i] + [Joined(fulls[i], fulls[i + 1])] + fulls[i + 2..] else fulls
  }

  lemma JoinedSupply(g: Geometry, s: seq<Block>, i: nat)
    requires i + 1 < |s| && End(g, s[i]) == Start(g, s[i + 1]) && SourceOf(g, s[i]) == SourceOf(g, s[i + 1]) != None
    ensures SameSupply(g, s[..i] + [Joined(s[i], s[i + 1])] + s[i + 2..], s)
  {
    var a, b, m := s[i], s[i + 1], Joined(s[i], s[i + 1]);
    var u := s[..i] + [m] + s[i + 2..];
    assert SourceOf(g, m) == SourceOf(g, a) && forall o :: Covers(g, m, o) <==> Covers(g, a, o) || Covers(g, b, o);
    forall src, o | Supplies(g, u, src, o) ensures Supplies(g, s, src, o) {
      var j :| 0 <= j < |u| && SourceOf(g, u[j]) == Some(src) && Covers(g, u[j], o);
      if j != i {
        assert u[j] == s[if j < i then j else j + 1];
      }
    }
    forall src, o | Supplies(g, s, src, o) ensures Supplies(g, u, src, o) {
      var j :| 0 <= j < |s| && SourceOf(g, s[j]) == Some(src) && Covers(g, s[j], o);
      assert u[i] == m;
      if j < i || j > i + 1 {
        assert s[j] == u[if j < i then j else j - 1];
      }
    }
  }

  lemma JoinedContent(g: Geometry, s: seq<Block>, i: nat)
    requires g.Valid() && i + 1 < |s| && End(g, s[i]) == Start(g, s[i + 1])
    requires s[i + 1].backing == s[i].backing.Advance(s[i].len) && (s[i].backing.Fill? ==> s[i].len % 4 == 0)
    ensures SameContent(g, s[..i] + [Joined(s[i], s[i + 1])] + s[i + 2..], s)
  {
    var a, b, m := s[i], s[i + 1], Joined(s[i], s[i + 1]);
    forall o ensures At(g, s[..i] + [m] + s[i + 2..], o) == At(g, s, o) {
      JoinContent(g, a, b, o);
      assert s == s[..i] + ([a] + [b]) + s[i + 2..];
      AtConcat(g, s[..i] + ([a] + [b]), s[i + 2..], o);
      AtConcat(g, s[..i], [a] + [b], o);
      AtConcat(g, [a], [b], o);
      AtConcat(g, s[..i] + [m], s[i + 2..], o);
      AtConcat(g, s[..i], [m], o);
    }
  }

  lemma SupplyTrans(g: Geometry, s: seq<Block>, t: seq<Block>, u: seq<Block>)
    requires SameSupply(g, s, t) && SameSupply(g, t, u)
    ensures SameSupply(g, s, u)
  {
    hide Within;
    WithinTrans(g, s, t, u);
    WithinTrans(g, u, t, s);
  }

  lemma JoinedShadows(t: seq<Block>, fulls: seq<Block>, i: nat, m: Block)
    requires Shadows(t, fulls) && i + 1 < |t| && Shadow(m, Joined(fulls[i], fulls[i + 1]))
    ensures Shadows(t[..i] + [m] + t[i + 2..], fulls[..i] + [Joined(fulls[i], fulls[i + 1])] + fulls[i + 2..])
  {
    hide Shadow;
  }

  lemma JoinedSeamless(g: Geometry, adds: seq<Block>, s: seq<Block>, i: nat)
    requires NoSeamInside(g, adds, s) && i + 1 < |s| && End(g, s[i]) == Start(g, s[i + 1]) && !Seam(g, adds, End(g, s[i]))
    ensures NoSeamInside(g, adds, s[..i] + [Joined(s[i], s[i + 1])] + s[i + 2..])
  {
    hide Seam;
    var u := s[..i] + [Joined(s[i], s[i + 1])] + s[i + 2..];
    forall j | 0 <= j < |u| ensures Seamless(g, adds, Start(g, u[j]), End(g, u[j])) {
      if j == i {
        assert Seamless(g, adds, Start(g, s[i]), End(g, s[i])) && Seamless(g, adds, Start(g, s[i + 1]), End(g, s[i + 1]));
      } else {
        assert u[j] == s[if j < i then j else j + 1];
      }
    }
  }

  /** Coalescing at a boundary that is not a seam. */
  lemma CoalesceFollows(g: Geometry, adds: seq<Block>, t: seq<Block>, fulls: seq<Block>, size: nat, i: nat)
    requires g.Valid() && Follows(g, adds, t, fulls, size)
    requires i + 1 < |fulls| && End(g, fulls[i]) == Start(g, fulls[i + 1]) ==> !Seam(g, adds, End(g, fulls[i]))
    ensures Follows(g, adds, Coalesce(g.bs, t, i), CoalesceFull(g.bs, t, fulls, i), size)
  {
    hide Seam, NoSeamInside, Within, At, SameContent, SameSupply;
    if i + 1 < |t| && Merge(g.bs, t[i], t[i + 1]).Some? {
      assert Shadow(t[i], fulls[i]) && Shadow(t[i + 1], fulls[i + 1]) && Before(g, fulls[i], fulls[i + 1]);
      MergedNeighbours(g, t[i], t[i + 1], fulls[i], fulls[i + 1]);
      hide Shadow, StrictlyOrdered, Inside, Merge;
      var m := Joined(fulls[i], fulls[i + 1]);
      JoinedShadows(t, fulls, i, Merge(g.bs, t[i], t[i + 1]).value);
      JoinedKeeps(g, fulls, i, m, size);
      JoinedSupply(g, fulls, i);
      JoinedContent(g, fulls, i);
      JoinedSeamless(g, adds, fulls, i);
      SupplyTrans(g, CoalesceFull(g.bs, t, fulls, i), fulls, adds);
      ContentTrans(g, CoalesceFull(g.bs, t, fulls, i), fulls, adds);
    }
  }

  lemma ContentTrans(g: Geometry, s: seq<Block>, t: seq<Block>, u: seq<Block>)
    requires SameContent(g, s, t) && SameContent(g, t, u)
    ensures SameContent(g, s, u)
  {
  }

  /** After it, that boundary is no exception any more. */
  lemma CoalesceApart(g: Geometry, adds: seq<Block>, t: seq<Block>, fulls: seq<Block>, size: nat, i: nat, x: int, y: int)
    requires g.Valid() && Shadows(t, fulls) && StrictlyOrdered(g, fulls) && Inside(g, fulls, size) && ApartBut(g, adds, fulls, x, y)
    requires forall j :: 0 <= j < |fulls| - 1 && End(g, fulls[j]) == y == Start(g, fulls[j + 1]) ==> j == i
    ensures ApartBut(g, adds, CoalesceFull(g.bs, t, fulls, i), x, x)
  {
    hide Seam;
    if i + 1 < |t| {
      assert Shadow(t[i], fulls[i]) && Shadow(t[i + 1], fulls[i + 1]) && Before(g, fulls[i], fulls[i + 1]);
      if Merge(g.bs, t[i], t[i + 1]).Some? {
        MergedNeighbours(g, t[i], t[i + 1], fulls[i], fulls[i + 1]);
        hide Merge, Shadow;
        JoinedApart(g, adds, fulls, i, x, y);
      } else {
        assert !Mergeable(g, fulls, i) by {
          if Mergeable(g, fulls, i) {
            SameSourceMerges(g, t[i], t[i + 1]);
          }
        }
        hide Merge, Shadow;
        assert CoalesceFull(g.bs, t, fulls, i) == fulls;
      }
    }
  }

  lemma JoinedApart(g: Geometry, adds: seq<Block>, s: seq<Block>, i: nat, x: int, y: int)
    requires ApartBut(g, adds, s, x, y) && i + 1 < |s| && End(g, s[i]) == Start(g, s[i + 1]) && SourceOf(g, s[i]) == SourceOf(g, s[i + 1])
    requires forall j :: 0 <= j < |s| - 1 && End(g, s[j]) == y == Start(g, s[j + 1]) ==> j == i
    ensures ApartBut(g, adds, s[..i] + [Joined(s[i], s[i + 1])] + s[i + 2..], x, x)
  {
    hide Seam;
    var m := Joined(s[i], s[i + 1]);
    var u := s[..i] + [m] + s[i + 2..];
    assert SourceOf(g, m) == SourceOf(g, s[i]) && End(g, m) == End(g, s[i + 1]) && Start(g, m) == Start(g, s[i]);
    forall j | 0 <= j < |u| - 1 && Mergeable(g, u, j) ensures Seam(g, adds, End(g, u[j])) || End(g, u[j]) == x {
      var k := if j < i then j else j + 1;
      assert u[j + 1] == if j + 1 == i then m else s[k + 1];
      assert Mergeable(g, s, k);
    }
  }

  // ---------------------------------------------------------------- one add

  /** The list starts with the add of the smallest block number. */
  lemma HeadIsFirst(g: Geometry, adds: seq<Block>, fulls: seq<Block>, size: nat)
    requires g.Valid() && StrictlyOrdered(g, fulls) && Inside(g, fulls, size) && SameContent(g, fulls, adds)
    requires fulls != [] && PairwiseDisjoint(g, adds) && Inside(g, adds, size)
    ensures forall m :: 0 <= m < |adds| ==> fulls[0].block <= adds[m].block
    ensures forall i :: 0 <= i < |fulls| ==> exists m :: 0 <= m < |adds| && Start(g, adds[m]) <= Start(g, fulls[i]) < End(g, adds[m])
    ensures exists m :: 0 <= m < |adds| && adds[m].block == fulls[0].block
  {
    forall m | 0 <= m < |adds| ensures fulls[0].block <= adds[m].block {
      CoveredIn(g, fulls, adds, m);
      var i :| 0 <= i < |fulls| && Covers(g, fulls[i], Start(g, adds[m]));
      assert i > 0 ==> fulls[0].block < fulls[i].block;
      BlockOrder(adds[m].block, fulls[i].block, g.bs);
    }
    forall i | 0 <= i < |fulls| ensures exists m :: 0 <= m < |adds| && Start(g, adds[m]) <= Start(g, fulls[i]) < End(g, adds[m]) {
      CoveredIn(g, adds, fulls, i);
      var m :| 0 <= m < |adds| && Covers(g, adds[m], Start(g, fulls[i]));
    }
    CoveredIn(g, adds, fulls, 0);
    var m :| 0 <= m < |adds| && Covers(g, adds[m], Start(g, fulls[0]));
    BlockOrder(fulls[0].block, adds[m].block, g.bs);
  }

  /** The first byte of block i of t is covered by s. */
  lemma CoveredIn(g: Geometry, s: seq<Block>, t: seq<Block>, i: nat)
    requires i < |t| && t[i].len > 0 && forall o :: At(g, s, o) == At(g, t, o)
    ensures exists j :: 0 <= j < |s| && Covers(g, s[j], Start(g, t[i]))
  {
    CoveredSome(g, t, i, Start(g, t[i]));
    if forall j :: 0 <= j < |s| ==> !Covers(g, s[j], Start(g, t[i])) {
      AtNone(g, s, Start(g, t[i]));
    }
  }

  lemma {:induction false} CoveredSome(g: Geometry, s: seq<Block>, i: nat, o: int)
    requires i < |s| && Covers(g, s[i], o)
    ensures At(g, s, o).Some?
  {
    if i > 0 {
      CoveredSome(g, s[1..], i - 1, o);
    }
  }

  /** Nothing ends inside, or starts at, a region that is not used, so no seam is there. */
  lemma FreshSeamless(g: Geometry, adds: seq<Block>, b: Block, size: nat)
    requires g.Valid() && b.len > 0 && Inside(g, adds, size)
    requires forall m :: 0 <= m < |adds| ==> Before(g, adds[m], b) || Before(g, b, adds[m])
    ensures forall x :: Start(g, b) <= x <= End(g, b) ==> !Seam(g, adds, x)
  {
    forall x | Start(g, b) <= x <= End(g, b) ensures !Seam(g, adds, x) {
      forall n | 0 <= n < |adds| ensures !SeamBy(g, adds, n, x) {
        assert adds[n].len > 0 && forall m :: 0 <= m < n ==> adds[m].len > 0;
      }
    }
  }

  /** The state after the plain insertion of b at p. */
  lemma InsertFollows(g: Geometry, adds: seq<Block>, t: seq<Block>, fulls: seq<Block>, b: Block, p: nat, size: nat)
    requires g.Valid() && Follows(g, adds, t, fulls, size) && Inside(g, fulls + [b], size) && Unused(g, fulls, b) && b.len < B32
    requires Inside(g, adds, size) && forall m :: 0 <= m < |adds| ==> Before(g, adds[m], b) || Before(g, b, adds[m])
    requires p <= |fulls| && (forall i :: 0 <= i < p ==> fulls[i].block < b.block) && forall i :: p <= i < |fulls| ==> fulls[i].block >= b.block
    ensures Follows(g, adds + [b], InsertAt(t, b, p), InsertAt(fulls, b, p), size)
  {
    assert (fulls + [b])[|fulls|] == b && b.len > 0;
    FreshSeamless(g, adds, b, size);
    hide Seam, SeamBy, Within, At, StrictlyOrdered, Inside, Unused;
    InsertKeepsOrder(g, fulls, b, p, size);
    InsertShadows(t, fulls, b, p);
    InsertSupply(g, adds, fulls, b, p);
    InsertSameContent(g, adds, fulls, b, p);
    InsertSeamless(g, adds, fulls, b, p);
  }

  lemma InsertShadows(t: seq<Block>, fulls: seq<Block>, b: Block, p: nat)
    requires Shadows(t, fulls) && p <= |t| && b.len < B32
    ensures Shadows(InsertAt(t, b, p), InsertAt(fulls, b, p))
  {
  }

  lemma InsertSupply(g: Geometry, adds: seq<Block>, fulls: seq<Block>, b: Block, p: nat)
    requires SameSupply(g, fulls, adds) && p <= |fulls|
    ensures SameSupply(g, InsertAt(fulls, b, p), adds + [b])
  {
    hide Within;
    var u := InsertAt(fulls, b, p);
    forall c | c in u ensures c in fulls + [b] {
    }
    forall c | c in fulls + [b] ensures c in u {
      InsertMember(fulls, b, p, c);
    }
    WithinMembers(g, u, fulls + [b]);
    WithinMembers(g, fulls + [b], u);
    WithinBoth(g, fulls, adds, b);
    WithinBoth(g, adds, fulls, b);
    WithinTrans(g, u, fulls + [b], adds + [b]);
    WithinTrans(g, adds + [b], fulls + [b], u);
  }

  lemma InsertMember(s: seq<Block>, b: Block, p: nat, c: Block)
    requires p <= |s| && c in s + [b]
    ensures c in InsertAt(s, b, p)
  {
    var i :| 0 <= i < |s + [b]| && (s + [b])[i] == c;
    assert InsertAt(s, b, p)[if i == |s| then p else if i < p then i else i + 1] == c;
  }

  lemma WithinBoth(g: Geometry, s: seq<Block>, t: seq<Block>, b: Block)
    requires Within(g, s, t)
    ensures Within(g, s + [b], t + [b])
  {
    forall src, o | Supplies(g, s + [b], src, o) ensures Supplies(g, t + [b], src, o) {
      var i :| 0 <= i < |s + [b]| && SourceOf(g, (s + [b])[i]) == Some(src) && Covers(g, (s + [b])[i], o);
      if i < |s| {
        assert Supplies(g, s, src, o);
        var j :| 0 <= j < |t| && SourceOf(g, t[j]) == Some(src) && Covers(g, t[j], o);
        assert (t + [b])[j] == t[j];
      } else {
        assert (t + [b])[|t|] == b;
      }
    }
  }

  lemma InsertSameContent(g: Geometry, adds: seq<Block>, fulls: seq<Block>, b: Block, p: nat)
    requires g.Valid() && SameContent(g, fulls, adds) && Unused(g, fulls, b) && p <= |fulls|
    requires forall m :: 0 <= m < |adds| ==> Before(g, adds[m], b) || Before(g, b, adds[m])
    ensures SameContent(g, InsertAt(fulls, b, p), adds + [b])
  {
    hide Unused, At;
    forall o ensures At(g, InsertAt(fulls, b, p), o) == At(g, adds + [b], o) {
      InsertContent(g, fulls, b, p, o);
      AddedContent(g, adds, b, o);
    }
  }

  lemma InsertSeamless(g: Geometry, adds: seq<Block>, fulls: seq<Block>, b: Block, p: nat)
    requires g.Valid() && NoSeamInside(g, adds, fulls) && p <= |fulls| && Unused(g, fulls, b)
    requires forall x :: Start(g, b) <= x <= End(g, b) ==> !Seam(g, adds, x)
    ensures NoSeamInside(g, adds + [b], InsertAt(fulls, b, p))
  {
    hide Seam;
    var u := InsertAt(fulls, b, p);
    forall i | 0 <= i < |u| ensures Seamless(g, adds + [b], Start(g, u[i]), End(g, u[i])) {
      if i != p {
        var j := if i < p then i else i - 1;
        assert u[i] == fulls[j] && Seamless(g, adds, Start(g, fulls[j]), End(g, fulls[j]));
        assert Before(g, fulls[j], b) || Before(g, b, fulls[j]);
      }
      forall x | Start(g, u[i]) < x < End(g, u[i]) ensures !Seam(g, adds + [b], x) {
        SeamNext(g, adds, b, x);
        NewSeam(g, adds, b, x);
      }
    }
  }

  /** The only seam an add can make is where it ends. */
  lemma NewSeam(g: Geometry, adds: seq<Block>, b: Block, x: int)
    ensures SeamBy(g, adds + [b], |adds|, x) ==> x == End(g, b)
  {
  }

  /** Where the new block was put, it may touch its neighbours. */
  lemma InsertApart(g: Geometry, adds: seq<Block>, fulls: seq<Block>, b: Block, p: nat)
    requires ApartBut(g, adds, fulls, -1, -1) && p <= |fulls|
    ensures ApartBut(g, adds + [b], InsertAt(fulls, b, p), Start(g, b), End(g, b))
  {
    hide Seam;
    var u := InsertAt(fulls, b, p);
    forall i | 0 <= i < |u| - 1 && Mergeable(g, u, i)
      ensures Seam(g, adds + [b], End(g, u[i])) || End(g, u[i]) == Start(g, b) || End(g, u[i]) == End(g, b)
    {
      if i != p && i + 1 != p {
        var j := if i < p then i else i - 1;
        assert u[i] == fulls[j] && u[i + 1] == fulls[j + 1];
        assert Mergeable(g, fulls, j);
        assert Seam(g, adds, End(g, fulls[j]));
        SeamNext(g, adds, b, End(g, fulls[j]));
      }
    }
  }

  /** A new head touches the old one at a seam. */
  lemma HeadApart(g: Geometry, adds: seq<Block>, fulls: seq<Block>, b: Block, size: nat)
    requires g.Valid() && StrictlyOrdered(g, fulls) && Inside(g, fulls, size) && SameContent(g, fulls, adds)
    requires fulls != [] && PairwiseDisjoint(g, adds) && Inside(g, adds, size) && b.block < fulls[0].block && b.len > 0
    requires ApartBut(g, adds, fulls, -1, -1)
    ensures ApartBut(g, adds + [b], [b] + fulls, -1, -1)
  {
    HeadIsFirst(g, adds, fulls, size);
    var next, u := adds + [b], [b] + fulls;
    var m :| 0 <= m < |adds| && adds[m].block == fulls[0].block;
    forall i | 0 <= i < |u| - 1 && Mergeable(g, u, i) ensures Seam(g, next, End(g, u[i])) {
      if i == 0 {
        assert next[m] == adds[m] && Start(g, next[m]) == End(g, b);
        assert SeamBy(g, next, |adds|, End(g, b));
      } else {
        hide SeamBy, Seam;
        assert u[i] == fulls[i - 1] && u[i + 1] == fulls[i];
        assert Mergeable(g, fulls, i - 1);
        assert Seam(g, adds, End(g, fulls[i - 1]));
        SeamNext(g, adds, b, End(g, fulls[i - 1]));
      }
    }
  }

  /** One more add. */
  lemma AddFollows(g: Geometry, adds: seq<Block>, t: seq<Block>, fulls: seq<Block>, b: Block, size: nat) returns (next: seq<Block>)
    requires g.Valid() && Follows(g, adds, t, fulls, size) && ApartBut(g, adds, fulls, -1, -1) && b.len < B32
    requires PairwiseDisjoint(g, adds + [b]) && Inside(g, adds + [b], size)
    ensures Follows(g, adds + [b], Enqueue(g.bs, t, b), next, size) && ApartBut(g, adds + [b], next, -1, -1)
  {
    hide Seam, Within, At, StrictlyOrdered, Inside, Unused, NoSeamInside, SameSupply, SameContent, ApartBut, Shadows, Coalesce, PairwiseDisjoint;
    AddsApart(g, adds, b, size);
    FullsUnused(g, adds, fulls, b, size);
    SameHead(t, fulls);
    if t == [] {
      next := InsertAt(fulls, b, 0);
      InsertFollows(g, adds, t, fulls, b, 0, size);
      OneApart(g, adds + [b], b);
      assert InsertAt(t, b, 0) == [b] == next;
    } else if t[0].block > b.block {
      next := InsertAt(fulls, b, 0);
      HeadLater(g, fulls, b);
      InsertFollows(g, adds, t, fulls, b, 0, size);
      HeadApart(g, adds, fulls, b, size);
      assert InsertAt(t, b, 0) == [b] + t && next == [b] + fulls;
    } else {
      next := MiddleFollows(g, adds, t, fulls, b, size);
    }
  }

  lemma AddsApart(g: Geometry, adds: seq<Block>, b: Block, size: nat)
    requires PairwiseDisjoint(g, adds + [b]) && Inside(g, adds + [b], size)
    ensures PairwiseDisjoint(g, adds) && Inside(g, adds, size) && b.len > 0
    ensures forall m :: 0 <= m < |adds| ==> Before(g, adds[m], b) || Before(g, b, adds[m])
  {
    assert (adds + [b])[..|adds|] == adds && (adds + [b])[|adds|] == b;
    InitAdds(g, adds + [b], size);
  }

  lemma FullsUnused(g: Geometry, adds: seq<Block>, fulls: seq<Block>, b: Block, size: nat)
    requires g.Valid() && StrictlyOrdered(g, fulls) && Inside(g, fulls, size) && SameContent(g, fulls, adds) && b.len > 0
    requires Inside(g, adds + [b], size) && forall m :: 0 <= m < |adds| ==> Before(g, adds[m], b) || Before(g, b, adds[m])
    ensures Unused(g, fulls, b) && Inside(g, fulls + [b], size)
  {
    UnusedFromContent(g, adds, fulls, b, size);
    assert (adds + [b])[|adds|] == b;
    InsideNext(g, fulls, adds + [b], size);
  }

  lemma SameHead(t: seq<Block>, fulls: seq<Block>)
    requires Shadows(t, fulls)
    ensures |t| == |fulls| && forall i :: 0 <= i < |t| ==> t[i].block == fulls[i].block
  {
  }

  lemma OneApart(g: Geometry, adds: seq<Block>, b: Block)
    ensures ApartBut(g, adds, [b], -1, -1)
  {
  }

  lemma HeadLater(g: Geometry, s: seq<Block>, b: Block)
    requires StrictlyOrdered(g, s) && s != [] && s[0].block > b.block
    ensures forall i :: 0 <= i < |s| ==> s[i].block >= b.block
  {
    assert forall i :: 0 < i < |s| ==> s[0].block < s[i].block;
  }

  /** An add behind the first block is merged on both sides. */
  lemma MiddleFollows(g: Geometry, adds: seq<Block>, t: seq<Block>, fulls: seq<Block>, b: Block, size: nat) returns (next: seq<Block>)
    requires g.Valid() && Follows(g, adds, t, fulls, size) && ApartBut(g, adds, fulls, -1, -1) && b.len < B32
    requires t != [] && t[0].block <= b.block && Unused(g, fulls, b) && Inside(g, fulls + [b], size)
    requires PairwiseDisjoint(g, adds + [b]) && Inside(g, adds + [b], size)
    ensures Follows(g, adds + [b], Enqueue(g.bs, t, b), next, size) && ApartBut(g, adds + [b], next, -1, -1)
  {
    hide Seam, Within, At, StrictlyOrdered, Inside, Unused, NoSeamInside, SameSupply, SameContent, ApartBut, Shadows, Shadow, Coalesce,
         PairwiseDisjoint, CoalesceFull;
    AddsApart(g, adds, b, size);
    SameHead(t, fulls);
    var p := InsertPosition(g, fulls, b, size);
    SamePosition(t, fulls, b.block, 1);
    var t1, f1 := InsertAt(t, b, p), InsertAt(fulls, b, p);
    InsertFollows(g, adds, t, fulls, b, p, size);
    InsertApart(g, adds, fulls, b, p);
    NoSeamAround(g, adds, fulls, b, size);
    var t2, f2 := Coalesce(g.bs, t1, p), CoalesceFull(g.bs, t1, f1, p);
    CoalesceFollows(g, adds + [b], t1, f1, size, p);
    UniqueEnd(g, f1, p, size);
    CoalesceApart(g, adds + [b], t1, f1, size, p, Start(g, b), End(g, b));
    SameHead(t1, f1);
    CoalesceShape(g.bs, t1, f1, p);
    next := MergedBefore(g, adds + [b], t2, f2, b, p, size);
  }

  /** The second merge, with what precedes the new block. */
  lemma MergedBefore(g: Geometry, adds: seq<Block>, t: seq<Block>, fulls: seq<Block>, b: Block, p: nat, size: nat) returns (next: seq<Block>)
    requires g.Valid() && Follows(g, adds, t, fulls, size) && ApartBut(g, adds, fulls, Start(g, b), Start(g, b))
    requires 0 < p < |fulls| && fulls[p].block == b.block && !Seam(g, adds, Start(g, b))
    ensures Follows(g, adds, Coalesce(g.bs, t, p - 1), next, size) && ApartBut(g, adds, next, -1, -1)
  {
    hide Seam, Within, At, Inside, NoSeamInside, SameSupply, SameContent, ApartBut, Shadow, Coalesce, CoalesceFull;
    SameHead(t, fulls);
    next := CoalesceFull(g.bs, t, fulls, p - 1);
    CoalesceFollows(g, adds, t, fulls, size, p - 1);
    UniqueStart(g, fulls, p);
    ApartLess(g, adds, fulls, Start(g, b));
    CoalesceApart(g, adds, t, fulls, size, p - 1, -1, Start(g, b));
  }

  lemma {:induction false} SamePosition(t: seq<Block>, fulls: seq<Block>, block: nat, from: nat)
    requires |t| == |fulls| && from <= |t| && forall i :: 0 <= i < |t| ==> t[i].block == fulls[i].block
    ensures Position(t, block, from) == Position(fulls, block, from)
    decreases |t| - from
  {
    if from < |t| && t[from].block < block {
      SamePosition(t, fulls, block, from + 1);
    }
  }

  /** An add that is not in front of its predecessors makes no seam, and is at none. */
  lemma NoSeamAround(g: Geometry, adds: seq<Block>, fulls: seq<Block>, b: Block, size: nat)
    requires g.Valid() && StrictlyOrdered(g, fulls) && Inside(g, fulls, size) && SameContent(g, fulls, adds)
    requires fulls != [] && fulls[0].block <= b.block && b.len > 0 && PairwiseDisjoint(g, adds) && Inside(g, adds, size)
    requires forall m :: 0 <= m < |adds| ==> Before(g, adds[m], b) || Before(g, b, adds[m])
    ensures !Seam(g, adds + [b], Start(g, b)) && !Seam(g, adds + [b], End(g, b))
  {
    HeadIsFirst(g, adds, fulls, size);
    FreshSeamless(g, adds, b, size);
    var m :| 0 <= m < |adds| && adds[m].block == fulls[0].block;
    assert (adds + [b])[m] == adds[m] && (adds + [b])[|adds|] == b;
    SeamNext(g, adds, b, Start(g, b));
    SeamNext(g, adds, b, End(g, b));
  }

  lemma UniqueEnd(g: Geometry, s: seq<Block>, p: nat, size: nat)
    requires StrictlyOrdered(g, s) && Inside(g, s, size) && p < |s|
    ensures forall j :: 0 <= j < |s| && End(g, s[j]) == End(g, s[p]) ==> j == p
  {
  }

  lemma UniqueStart(g: Geometry, s: seq<Block>, p: nat)
    requires g.Valid() && StrictlyOrdered(g, s) && 0 < p < |s|
    ensures forall j :: 0 <= j < |s| && Start(g, s[j]) == Start(g, s[p]) ==> j == p
  {
    forall j | 0 <= j < |s| && Start(g, s[j]) == Start(g, s[p]) ensures j == p {
      BlockOrder(s[j].block, s[p].block, g.bs);
      BlockOrder(s[p].block, s[j].block, g.bs);
    }
  }

  lemma CoalesceShape(bs: nat, t: seq<Block>, fulls: seq<Block>, i: nat)
    requires bs > 0 && |t| == |fulls| && 0 < i < |fulls|
    ensures var u := CoalesceFull(bs, t, fulls, i);
            |u| > i && u[i].block == fulls[i].block && u[i - 1] == fulls[i - 1]
  {
  }

  lemma ApartLess(g: Geometry, adds: seq<Block>, s: seq<Block>, x: int)
    requires ApartBut(g, adds, s, x, x)
    ensures ApartBut(g, adds, s, -1, x)
  {
  }

  // ------------------------------------------------------------ all the adds

  /** The list of any sequence of adds, next to the list with unbounded lengths. */
  lemma {:induction false} AllFollow(g: Geometry, adds: seq<Block>, size: nat) returns (fulls: seq<Block>)
    requires g.Valid() && PairwiseDisjoint(g, adds) && Inside(g, adds, size) && forall i :: 0 <= i < |adds| ==> adds[i].len < B32
    ensures Follows(g, adds, EnqueueAll(g.bs, adds), fulls, size) && ApartBut(g, adds, fulls, -1, -1)
  {
    hide Follows, ApartBut, PairwiseDisjoint, Inside, Enqueue;
    if adds == [] {
      fulls := [];
      NothingFollows(g, size);
    } else {
      var k := |adds| - 1;
      InitAdds(g, adds, size);
      var before := AllFollow(g, adds[..k], size);
      assert adds == adds[..k] + [adds[k]];
      fulls := AddFollows(g, adds[..k], EnqueueAll(g.bs, adds[..k]), before, adds[k], size);
    }
  }

  lemma NothingFollows(g: Geometry, size: nat)
    ensures Follows(g, [], [], [], size) && ApartBut(g, [], [], -1, -1)
  {
  }

  /** A block of unbounded length is a run without a seam inside, and its length is bounded if
      those of all such runs are. */
  lemma FullIsRun(g: Geometry, adds: seq<Block>, t: seq<Block>, fulls: seq<Block>, size: nat, i: nat)
    requires Follows(g, adds, t, fulls, size) && i < |fulls| && fulls[i].len >= B32
    ensures !MergedRunsBelow(g, adds)
  {
    assert Shadow(t[i], fulls[i]);
    hide Seam, At, SameContent;
    var src, lo, hi := SourceOf(g, fulls[i]).value, Start(g, fulls[i]), End(g, fulls[i]);
    forall o | lo <= o < hi ensures Supplies(g, adds, src, o) {
      assert Supplies(g, fulls, src, o);
    }
    assert RunOf(g, adds, src, lo, hi) && Seamless(g, adds, lo, hi);
  }

  /** A run without a seam inside is inside one block. */
  lemma RunInBlock(g: Geometry, adds: seq<Block>, t: seq<Block>, fulls: seq<Block>, size: nat, src: Source, lo: int, hi: int)
    requires Follows(g, adds, t, fulls, size) && ApartBut(g, adds, fulls, -1, -1)
    requires (forall i :: 0 <= i < |fulls| ==> fulls[i].len < B32) && RunOf(g, adds, src, lo, hi) && Seamless(g, adds, lo, hi)
    ensures hi - lo < B32
  {
    hide Seam, At, SameContent, Shadows;
    assert Supplies(g, fulls, src, lo);
    var i :| 0 <= i < |fulls| && SourceOf(g, fulls[i]) == Some(src) && Covers(g, fulls[i], lo);
    var x := End(g, fulls[i]);
    if x < hi {
      assert Supplies(g, adds, src, x);
      assert Supplies(g, fulls, src, x);
      NotSupplied(g, adds, fulls, size, i, src);
    }
  }

  /** Behind a block that is not followed by a seam, its source does not go on. */
  lemma NotSupplied(g: Geometry, adds: seq<Block>, s: seq<Block>, size: nat, i: nat, src: Source)
    requires StrictlyOrdered(g, s) && Inside(g, s, size) && ApartBut(g, adds, s, -1, -1)
    requires i < |s| && s[i].len < B32 && SourceOf(g, s[i]) == Some(src) && !Seam(g, adds, End(g, s[i]))
    ensures !Supplies(g, s, src, End(g, s[i]))
  {
    hide Seam, ApartBut;
    forall j | 0 <= j < |s| && SourceOf(g, s[j]) == Some(src) ensures !Covers(g, s[j], End(g, s[i])) {
      if Covers(g, s[j], End(g, s[i])) {
        NextBlock(g, s, i, j, size);
        SeamAfter(g, adds, s, i);
      }
    }
  }

  lemma NextBlock(g: Geometry, s: seq<Block>, i: nat, j: nat, size: nat)
    requires StrictlyOrdered(g, s) && Inside(g, s, size) && i < |s| && j < |s| && Covers(g, s[j], End(g, s[i]))
    ensures j == i + 1 && Start(g, s[j]) == End(g, s[i])
  {
    assert j < i ==> Before(g, s[j], s[i]);
    assert i < j ==> Before(g, s[i], s[j]) && s[i + 1].len > 0;
    assert i + 1 < j ==> Before(g, s[i], s[i + 1]) && Before(g, s[i + 1], s[j]);
  }

  lemma SeamAfter(g: Geometry, adds: seq<Block>, s: seq<Block>, i: nat)
    requires ApartBut(g, adds, s, -1, -1) && i + 1 < |s| && Mergeable(g, s, i)
    ensures Seam(g, adds, End(g, s[i]))
  {
  }

  /** A block that is shorter than it should be leaves a byte uncovered. */
  lemma ShortLosesByte(g: Geometry, adds: seq<Block>, t: seq<Block>, fulls: seq<Block>, size: nat, i: nat)
    requires Follows(g, adds, t, fulls, size) && i < |fulls| && fulls[i].len >= B32
    ensures !SameContent(g, t, adds)
  {
    hide Within, NoSeamInside, At;
    var o := Start(g, t[i]) + t[i].len;
    assert Shadow(t[i], fulls[i]) && Covers(g, fulls[i], o);
    CoveredSome(g, fulls, i, o);
    forall j | 0 <= j < |t| ensures !Covers(g, t[j], o) {
      assert Shadow(t[j], fulls[j]);
      assert j < i ==> Before(g, fulls[j], fulls[i]);
      assert j > i ==> Before(g, fulls[i], fulls[j]);
    }
    AtNone(g, t, o);
    assert At(g, t, o) != At(g, adds, o);
  }

  lemma NoneShort(t: seq<Block>, fulls: seq<Block>)
    requires Shadows(t, fulls) && forall i :: 0 <= i < |fulls| ==> fulls[i].len < B32
    ensures t == fulls
  {
    forall i | 0 <= i < |t| ensures t[i] == fulls[i] {
      assert Shadow(t[i], fulls[i]);
    }
  }

  /** For every sequence of adds, in any order, of regions that do not overlap: the list holds the
      union of what was added if and only if no run of one source between two seams reaches 2^32
      bytes, and then it is sorted. */
  lemma AddsKeptIff(g: Geometry, adds: seq<Block>, size: nat)
    requires g.Valid() && PairwiseDisjoint(g, adds) && Inside(g, adds, size) && forall i :: 0 <= i < |adds| ==> adds[i].len < B32
    ensures SameContent(g, EnqueueAll(g.bs, adds), adds) <==> MergedRunsBelow(g, adds)
    ensures MergedRunsBelow(g, adds) ==>
              var s := EnqueueAll(g.bs, adds); StrictlyOrdered(g, s) && Inside(g, s, size) && SameSupply(g, s, adds)
  {
    hide StrictlyOrdered, Inside, SameSupply, SameContent, NoSeamInside, ApartBut, RunOf, Seamless, PairwiseDisjoint, Shadows;
    var t := EnqueueAll(g.bs, adds);
    var fulls := AllFollow(g, adds, size);
    if i :| 0 <= i < |fulls| && fulls[i].len >= B32 {
      FullIsRun(g, adds, t, fulls, size, i);
      ShortLosesByte(g, adds, t, fulls, size, i);
    } else {
      NoneShort(t, fulls);
      forall src, lo, hi | RunOf(g, adds, src, lo, hi) && Seamless(g, adds, lo, hi) ensures hi - lo < B32 {
        RunInBlock(g, adds, t, fulls, size, src, lo, hi);
      }
    }
  }

  /** Two blocks of one fill that together reach 2^32 bytes are both kept when the second one is
      added in front of the first. */
  lemma SeamKeepsBytes(g: Geometry, v: u32, n: nat)
    requires g.Valid() && 0 < n && 2 * (n * g.bs) == B32
    ensures var a, b := Block(0, n * g.bs, Fill(v)), Block(n, n * g.bs, Fill(v));
            && EnqueueAll(g.bs, [b, a]) == [a, b] && EnqueueAll(g.bs, [a, b]) == [Block(0, 0, Fill(v))]
  {
    var a, b := Block(0, n * g.bs, Fill(v)), Block(n, n * g.bs, Fill(v));
    OverlongRunLosesBytes(g, v, n);
    TwoAdds(g.bs, a, b);
    TwoAdds(g.bs, b, a);
  }

  lemma TwoAdds(bs: nat, a: Block, b: Block)
    requires bs > 0
    ensures EnqueueAll(bs, [a, b]) == Enqueue(bs, [a], b)
    ensures a.block > b.block ==> EnqueueAll(bs, [a, b]) == [b, a]
  {
    hide Coalesce;
    assert [a, b][..1] == [a] && [a][..0] == [];
    assert EnqueueAll(bs, [a]) == [a];
    assert [b] + [a] == [b, a];
  }
}
