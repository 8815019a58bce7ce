/**
 Extents in file order: what an extent tree holds, apart from how it is searched.

 `Punch` and `MergeInsert` say what one update of the cache does to the list; the lemmas say
 that the list keeps agreeing with the file's block map.
 */
module ExtentList {

  /** F2FS_MIN_EXTENT_LEN: shorter remainders are dropped. */
  const MIN_EXTENT_LEN: nat := 64

  /** Pages fofs .. fofs + len of the file lie at blocks blk .. blk + len. */
  datatype Extent = Extent(fofs: nat, blk: nat, len: nat)

  /** The file's mapped pages and their block addresses. */
  type BlockMap = map<nat, nat>

  function End(e: Extent): nat { e.fofs + e.len }

  predicate Covers(e: Extent, page: nat) {
    e.fofs <= page < End(e)
  }

  /** Every page of the extent lies where the block map says. */
  ghost predicate Agrees(e: Extent, bm: BlockMap) {
    forall q {:trigger q in bm} {:trigger bm[q]} :: Covers(e, q) ==> q in bm && bm[q] == e.blk + q - e.fofs
  }

  ghost predicate AllAgree(xs: seq<Extent>, bm: BlockMap) {
    forall i :: 0 <= i < |xs| ==> Agrees(xs[i], bm)
  }

  /** Non-empty, sorted by file offset and pairwise disjoint. */
  ghost predicate Ordered(xs: seq<Extent>) {
    && (forall i :: 0 <= i < |xs| ==> xs[i].len > 0)
    && (forall i, j :: 0 <= i < j < |xs| ==> End(xs[i]) <= xs[j].fofs)
  }

  ghost predicate CoversPage(xs: seq<Extent>, page: nat) {
    exists i :: 0 <= i < |xs| && Covers(xs[i], page)
  }

  /** The block an extent gives for a page. */
  function BlockAt(e: Extent, page: nat): int { e.blk + page - e.fofs }

  /** Some extent maps `page` to block `blk`. */
  ghost predicate HitsAt(xs: seq<Extent>, page: nat, blk: int) {
    exists i :: 0 <= i < |xs| && Covers(xs[i], page) && BlockAt(xs[i], page) == blk
  }

  ghost predicate EndsBy(xs: seq<Extent>, bound: nat) {
    forall i :: 0 <= i < |xs| ==> End(xs[i]) <= bound
  }

  ghost predicate StartsFrom(xs: seq<Extent>, bound: nat) {
    forall i :: 0 <= i < |xs| ==> bound <= xs[i].fofs
  }

  ghost predicate AllDisjoint(xs: seq<Extent>, lo: nat, hi: nat) {
    forall i :: 0 <= i < |xs| ==> Disjoint(xs[i], lo, hi)
  }

  lemma OrderedAppend(xs: seq<Extent>, ys: seq<Extent>, bound: nat)
    requires Ordered(xs) && Ordered(ys) && EndsBy(xs, bound) && StartsFrom(ys, bound)
    ensures Ordered(xs + ys)
  {
  }

  lemma OrderedSlice(xs: seq<Extent>, k: nat)
    requires Ordered(xs) && k <= |xs|
    ensures Ordered(xs[..k]) && Ordered(xs[k..])
    ensures k < |xs| ==> EndsBy(xs[..k], xs[k].fofs) && StartsFrom(xs[k..], xs[k].fofs)
  {
  }

  // ----- removing a range

  predicate Disjoint(e: Extent, lo: nat, hi: nat) {
    End(e) <= lo || hi <= e.fofs
  }

  predicate KeepsLeft(e: Extent, lo: nat) {
    lo - e.fofs >= MIN_EXTENT_LEN
  }

  predicate KeepsRight(e: Extent, hi: nat) {
    End(e) - hi >= MIN_EXTENT_LEN
  }

  function LeftPart(e: Extent, lo: nat): Extent
    requires e.fofs <= lo
  {
    Extent(e.fofs, e.blk, lo - e.fofs)
  }

  function RightPart(e: Extent, hi: nat): Extent
    requires e.fofs <= hi <= End(e)
  {
    Extent(hi, hi - e.fofs + e.blk, End(e) - hi)
  }

  /** What is left of one extent; the second of two parts needs a fresh node. */
  function Pieces(e: Extent, lo: nat, hi: nat, alloc: bool): seq<Extent>
    requires lo <= hi
  {
    if Disjoint(e, lo, hi) then [e]
    else if KeepsLeft(e, lo) && KeepsRight(e, hi) then
      if alloc then [LeftPart(e, lo), RightPart(e, hi)] else [LeftPart(e, lo)]
    else if KeepsLeft(e, lo) then [LeftPart(e, lo)]
    else if KeepsRight(e, hi) then [RightPart(e, hi)]
    else []
  }

  function Punch(xs: seq<Extent>, lo: nat, hi: nat, alloc: bool): seq<Extent>
    requires lo <= hi
  {
    if xs == [] then []
    else Punch(xs[..|xs| - 1], lo, hi, alloc) + Pieces(xs[|xs| - 1], lo, hi, alloc)
  }

  /** The block map changed inside lo..hi only. */
  ghost predicate SameOutside(bm: BlockMap, bm': BlockMap, lo: nat, hi: nat) {
    forall q {:trigger q in bm'} {:trigger bm'[q]} :: !(lo <= q < hi) && q in bm ==> q in bm' && bm'[q] == bm[q]
  }

  lemma PiecesAgree(e: Extent, lo: nat, hi: nat, alloc: bool, bm: BlockMap, bm': BlockMap)
    requires lo <= hi
    requires Agrees(e, bm) && SameOutside(bm, bm', lo, hi)
    ensures AllAgree(Pieces(e, lo, hi, alloc), bm')
  {
    forall x | x in Pieces(e, lo, hi, alloc) ensures Agrees(x, bm') {
      forall q | Covers(x, q) ensures q in bm' && bm'[q] == x.blk + q - x.fofs {
        assert Covers(e, q) && q in bm;
      }
    }
  }

  lemma {:induction false} PunchAgrees(xs: seq<Extent>, lo: nat, hi: nat, alloc: bool, bm: BlockMap, bm': BlockMap)
    requires lo <= hi
    requires AllAgree(xs, bm) && SameOutside(bm, bm', lo, hi)
    ensures AllAgree(Punch(xs, lo, hi, alloc), bm')
  {
    if xs != [] {
      PunchAgrees(xs[..|xs| - 1], lo, hi, alloc, bm, bm');
      PiecesAgree(xs[|xs| - 1], lo, hi, alloc, bm, bm');
    }
  }

  lemma PiecesOrdered(e: Extent, lo: nat, hi: nat, alloc: bool)
    requires lo <= hi && e.len > 0
    ensures
      var ps := Pieces(e, lo, hi, alloc);
      Ordered(ps) && StartsFrom(ps, e.fofs) && EndsBy(ps, End(e)) && AllDisjoint(ps, lo, hi)
  {
  }

  /** Punching keeps the order, stays within the old bounds and clears the range. */
  lemma {:induction false} PunchOrdered(xs: seq<Extent>, lo: nat, hi: nat, alloc: bool, bound: nat)
    requires lo <= hi && Ordered(xs) && EndsBy(xs, bound)
    ensures
      var ys := Punch(xs, lo, hi, alloc);
      Ordered(ys) && EndsBy(ys, bound) && AllDisjoint(ys, lo, hi)
  {
    if xs != [] {
      var init, e := xs[..|xs| - 1], xs[|xs| - 1];
      OrderedSlice(xs, |xs| - 1);
      PunchOrdered(init, lo, hi, alloc, e.fofs);
      PiecesOrdered(e, lo, hi, alloc);
      OrderedAppend(Punch(init, lo, hi, alloc), Pieces(e, lo, hi, alloc), e.fofs);
    }
  }

  /** Extents clear of the range are untouched. */
  lemma {:induction false} PunchDisjoint(xs: seq<Extent>, lo: nat, hi: nat, alloc: bool)
    requires lo <= hi && AllDisjoint(xs, lo, hi)
    ensures Punch(xs, lo, hi, alloc) == xs
  {
    if xs != [] {
      PunchDisjoint(xs[..|xs| - 1], lo, hi, alloc);
      assert xs == xs[..|xs| - 1] + [xs[|xs| - 1]];
    }
  }

  lemma {:induction false} PunchAppend(xs: seq<Extent>, ys: seq<Extent>, lo: nat, hi: nat, alloc: bool)
    requires lo <= hi
    ensures Punch(xs + ys, lo, hi, alloc) == Punch(xs, lo, hi, alloc) + Punch(ys, lo, hi, alloc)
  {
    hide Pieces;
    if ys == [] {
      assert xs + ys == xs;
    } else {
      var init, e := ys[..|ys| - 1], ys[|ys| - 1];
      PunchAppend(xs, init, lo, hi, alloc);
      var zs := xs + ys;
      assert zs[..|zs| - 1] == xs + init && zs[|zs| - 1] == e;
      var a, b, c := Punch(xs, lo, hi, alloc), Punch(init, lo, hi, alloc), Pieces(e, lo, hi, alloc);
      assert (a + b) + c == a + (b + c);
    }
  }

  /**
   Page p, which extent `e` covered, is still cached once lo .. hi is cut out: `e` misses the range, or what is
   left on p's side has at least 64 pages.  With 64 pages left on both sides the right one needs a new node.
   */
  predicate Survives(e: Extent, lo: nat, hi: nat, alloc: bool, p: nat) {
    || e.fofs + e.len <= lo || hi <= e.fofs
    || (p < lo && lo - e.fofs >= 64)
    || (p >= hi && e.fofs + e.len - hi >= 64 && (lo - e.fofs < 64 || alloc))
  }

  /** Some extent maps page p to block b and keeps doing so. */
  ghost predicate KeptAt(xs: seq<Extent>, lo: nat, hi: nat, alloc: bool, p: nat, b: int) {
    exists i :: 0 <= i < |xs| && Covers(xs[i], p) && BlockAt(xs[i], p) == b && Survives(xs[i], lo, hi, alloc, p)
  }

  lemma PiecesKeep(e: Extent, lo: nat, hi: nat, alloc: bool, p: nat, b: int)
    requires lo <= hi && !(lo <= p < hi)
    ensures HitsAt(Pieces(e, lo, hi, alloc), p, b) <==>
      Covers(e, p) && BlockAt(e, p) == b && Survives(e, lo, hi, alloc, p)
  {
    var ps := Pieces(e, lo, hi, alloc);
    if Covers(e, p) && BlockAt(e, p) == b && Survives(e, lo, hi, alloc, p) {
      assert Covers(ps[if p >= hi then |ps| - 1 else 0], p);
    }
  }

  lemma HitsAppend(xs: seq<Extent>, ys: seq<Extent>, p: nat, b: int)
    ensures HitsAt(xs + ys, p, b) <==> HitsAt(xs, p, b) || HitsAt(ys, p, b)
  {
    var zs := xs + ys;
    if i :| 0 <= i < |xs| && Covers(xs[i], p) && BlockAt(xs[i], p) == b {
      assert zs[i] == xs[i];
    }
    if i :| 0 <= i < |ys| && Covers(ys[i], p) && BlockAt(ys[i], p) == b {
      assert zs[|xs| + i] == ys[i];
    }
  }

  /** What a cut keeps: outside the range a page hits, at its block, exactly if it did before and survives. */
  lemma {:induction false} PunchKeeps(xs: seq<Extent>, lo: nat, hi: nat, alloc: bool, p: nat, b: int)
    requires lo <= hi && !(lo <= p < hi)
    ensures HitsAt(Punch(xs, lo, hi, alloc), p, b) <==> KeptAt(xs, lo, hi, alloc, p, b)
  {
    hide Pieces, Survives, Covers, BlockAt;
    if xs != [] {
      var init, e := xs[..|xs| - 1], xs[|xs| - 1];
      PunchKeeps(init, lo, hi, alloc, p, b);
      PiecesKeep(e, lo, hi, alloc, p, b);
      HitsAppend(Punch(init, lo, hi, alloc), Pieces(e, lo, hi, alloc), p, b);
      if i :| 0 <= i < |init| && Covers(init[i], p) && BlockAt(init[i], p) == b && Survives(init[i], lo, hi, alloc, p) {
        assert xs[i] == init[i];
      }
    }
  }

  // ----- inserting one extent, merged with its neighbours

  /** __is_extent_mergeable. */
  predicate Mergeable(back: Extent, front: Extent) {
    End(back) == front.fofs && back.blk + back.len == front.blk
  }

  function Join(back: Extent, front: Extent): Extent {
    Extent(back.fofs, back.blk, back.len + front.len)
  }

  /** How many extents end at or before `page`. */
  function Rank(xs: seq<Extent>, page: nat): (k: nat)
    ensures k <= |xs|
    ensures forall i :: 0 <= i < k ==> End(xs[i]) <= page
    ensures k < |xs| ==> End(xs[k]) > page
  {
    if xs != [] && End(xs[0]) <= page then
      var k := Rank(xs[1..], page);
      assert forall i :: 1 <= i < 1 + k ==> xs[i] == xs[1..][i - 1];
      1 + k
    else 0
  }

  lemma RankAt(xs: seq<Extent>, page: nat, k: nat)
    requires k <= |xs|
    requires forall i :: 0 <= i < k ==> End(xs[i]) <= page
    requires k < |xs| ==> page < End(xs[k])
    ensures Rank(xs, page) == k
  {
  }

  predicate MergesBack(xs: seq<Extent>, e: Extent) {
    var p := Rank(xs, e.fofs);
    p > 0 && Mergeable(xs[p - 1], e)
  }

  /** `e`, joined to the extent before it when they are contiguous. */
  function BackJoined(xs: seq<Extent>, e: Extent): Extent {
    if MergesBack(xs, e) then Join(xs[Rank(xs, e.fofs) - 1], e) else e
  }

  predicate MergesFront(xs: seq<Extent>, e: Extent) {
    var p := Rank(xs, e.fofs);
    p < |xs| && Mergeable(BackJoined(xs, e), xs[p])
  }

  /** The extent that holds `e` in the end. */
  function Joined(xs: seq<Extent>, e: Extent): Extent {
    if MergesFront(xs, e) then Join(BackJoined(xs, e), xs[Rank(xs, e.fofs)]) else BackJoined(xs, e)
  }

  function MergeInsert(xs: seq<Extent>, e: Extent, alloc: bool): seq<Extent> {
    var p := Rank(xs, e.fofs);
    if !MergesBack(xs, e) && !MergesFront(xs, e) && !alloc then xs
    else
      xs[..if MergesBack(xs, e) then p - 1 else p] + [Joined(xs, e)] + xs[if MergesFront(xs, e) then p + 1 else p..]
  }

  lemma JoinAgrees(back: Extent, front: Extent, bm: BlockMap)
    requires Agrees(back, bm) && Agrees(front, bm) && Mergeable(back, front)
    ensures Agrees(Join(back, front), bm)
  {
    forall q | Covers(Join(back, front), q)
      ensures q in bm && bm[q] == back.blk + q - back.fofs
    {
      assert Covers(back, q) || Covers(front, q);
    }
  }

  lemma JoinedAgrees(xs: seq<Extent>, e: Extent, bm: BlockMap)
    requires AllAgree(xs, bm) && Agrees(e, bm)
    ensures Agrees(Joined(xs, e), bm)
  {
    var p := Rank(xs, e.fofs);
    if MergesBack(xs, e) {
      JoinAgrees(xs[p - 1], e, bm);
    }
    if MergesFront(xs, e) {
      JoinAgrees(BackJoined(xs, e), xs[p], bm);
    }
  }

  lemma MergeInsertAgrees(xs: seq<Extent>, e: Extent, alloc: bool, bm: BlockMap)
    requires AllAgree(xs, bm) && Agrees(e, bm)
    ensures AllAgree(MergeInsert(xs, e, alloc), bm)
  {
    JoinedAgrees(xs, e, bm);
  }

  /** The pages of `m` may take the place of xs[i..j] when the neighbours leave room. */
  lemma ReplaceOrdered(xs: seq<Extent>, i: nat, j: nat, m: Extent)
    requires Ordered(xs) && i <= j <= |xs| && m.len > 0
    requires EndsBy(xs[..i], m.fofs) && StartsFrom(xs[j..], End(m))
    ensures Ordered(xs[..i] + [m] + xs[j..])
  {
    OrderedSlice(xs, i);
    OrderedSlice(xs, j);
    OrderedAppend(xs[..i], [m], m.fofs);
    OrderedAppend(xs[..i] + [m], xs[j..], End(m));
  }

  /** A range no extent meets lies between the extents before and after its rank. */
  lemma RankOfGap(xs: seq<Extent>, e: Extent)
    requires Ordered(xs) && e.len > 0 && AllDisjoint(xs, e.fofs, End(e))
    ensures EndsBy(xs[..Rank(xs, e.fofs)], e.fofs)
    ensures StartsFrom(xs[Rank(xs, e.fofs)..], End(e))
  {
    var p := Rank(xs, e.fofs);
    forall i | 0 <= i < |xs| - p ensures End(e) <= xs[p..][i].fofs {
      assert Disjoint(xs[p], e.fofs, End(e));
      assert i > 0 ==> End(xs[p]) <= xs[p + i].fofs;
    }
  }

  lemma MergeInsertOrdered(xs: seq<Extent>, e: Extent, alloc: bool)
    requires Ordered(xs) && e.len > 0 && AllDisjoint(xs, e.fofs, End(e))
    ensures Ordered(MergeInsert(xs, e, alloc))
  {
    var p := Rank(xs, e.fofs);
    RankOfGap(xs, e);
    var back, front := MergesBack(xs, e), MergesFront(xs, e);
    if back {
      OrderedSlice(xs, p - 1);
    }
    ReplaceOrdered(xs, if back then p - 1 else p, if front then p + 1 else p, Joined(xs, e));
  }

  /** Every page of `e` hits, with the block `e` gives for it. */
  ghost predicate AllHit(xs: seq<Extent>, e: Extent) {
    forall page: nat :: Covers(e, page) ==> HitsAt(xs, page, BlockAt(e, page))
  }

  /** The inserted range ends up cached, at its blocks. */
  lemma MergeInsertCovers(xs: seq<Extent>, e: Extent)
    ensures
      var ys := MergeInsert(xs, e, true);
      exists i :: 0 <= i < |ys| && ys[i].fofs <= e.fofs && End(e) <= End(ys[i]) &&
        ys[i].blk + e.fofs == e.blk + ys[i].fofs
  {
    var p := Rank(xs, e.fofs);
    var k := if MergesBack(xs, e) then p - 1 else p;
    var ys := MergeInsert(xs, e, true);
    assert ys[k] == Joined(xs, e);
  }

  lemma JoinHits(back: Extent, front: Extent, p: nat, b: int)
    requires Mergeable(back, front)
    ensures HitsAt([Join(back, front)], p, b) <==> HitsAt([back], p, b) || HitsAt([front], p, b)
  {
    assert [Join(back, front)][0] == Join(back, front) && [back][0] == back && [front][0] == front;
  }

  lemma JoinedHits(xs: seq<Extent>, e: Extent, p: nat, b: int)
    ensures
      var k := Rank(xs, e.fofs);
      HitsAt([Joined(xs, e)], p, b) <==>
        HitsAt(xs[if MergesBack(xs, e) then k - 1 else k..k], p, b) || HitsAt([e], p, b) ||
        HitsAt(xs[k..if MergesFront(xs, e) then k + 1 else k], p, b)
  {
    hide HitsAt, Rank, Join;
    var k := Rank(xs, e.fofs);
    NoHit(p, b);
    if MergesBack(xs, e) {
      assert xs[k - 1..k] == [xs[k - 1]];
      JoinHits(xs[k - 1], e, p, b);
    } else {
      assert xs[k..k] == [];
    }
    if MergesFront(xs, e) {
      assert xs[k..k + 1] == [xs[k]];
      JoinHits(BackJoined(xs, e), xs[k], p, b);
    } else {
      assert xs[k..k] == [];
    }
  }

  lemma NoHit(p: nat, b: int)
    ensures !HitsAt([], p, b)
  {
  }

  /** Merging neither loses nor moves a page; the new extent is added unless it needed a node and got none. */
  lemma MergeInsertKeeps(xs: seq<Extent>, e: Extent, alloc: bool, p: nat, b: int)
    ensures HitsAt(MergeInsert(xs, e, alloc), p, b) <==>
      || HitsAt(xs, p, b)
      || (Covers(e, p) && BlockAt(e, p) == b && (alloc || MergesBack(xs, e) || MergesFront(xs, e)))
  {
    hide Rank, MergesBack, MergesFront, Joined, HitsAt;
    var k := Rank(xs, e.fofs);
    var back, front := MergesBack(xs, e), MergesFront(xs, e);
    if back || front || alloc {
      MergeBounds(xs, e);
      var i, j := if back then k - 1 else k, if front then k + 1 else k;
      JoinedHits(xs, e, p, b);
      OneHit(e, p, b);
      assert xs == xs[..i] + (xs[i..k] + (xs[k..j] + xs[j..]));
      HitsAppend(xs[..i], xs[i..k] + (xs[k..j] + xs[j..]), p, b);
      HitsAppend(xs[i..k], xs[k..j] + xs[j..], p, b);
      HitsAppend(xs[k..j], xs[j..], p, b);
      HitsAppend(xs[..i] + [Joined(xs, e)], xs[j..], p, b);
      HitsAppend(xs[..i], [Joined(xs, e)], p, b);
    }
  }

  lemma MergeBounds(xs: seq<Extent>, e: Extent)
    ensures MergesBack(xs, e) ==> Rank(xs, e.fofs) > 0
    ensures MergesFront(xs, e) ==> Rank(xs, e.fofs) < |xs|
  {
  }

  lemma OneHit(e: Extent, p: nat, b: int)
    ensures HitsAt([e], p, b) <==> Covers(e, p) && BlockAt(e, p) == b
  {
    assert [e][0] == e;
  }

  // ----- no two neighbours could be one

  /** Neighbours are not contiguous both in the file and on the device. */
  ghost predicate Unmerged(xs: seq<Extent>) {
    forall i :: 0 <= i < |xs| - 1 ==> !Mergeable(xs[i], xs[i + 1])
  }

  lemma UnmergedAppend(xs: seq<Extent>, ys: seq<Extent>)
    requires Unmerged(xs) && Unmerged(ys)
    requires xs != [] && ys != [] ==> !Mergeable(xs[|xs| - 1], ys[0])
    ensures Unmerged(xs + ys)
  {
    var zs := xs + ys;
    forall i | 0 <= i < |zs| - 1 ensures !Mergeable(zs[i], zs[i + 1]) {
      if i >= |xs| {
        assert zs[i] == ys[i - |xs|] && zs[i + 1] == ys[i - |xs| + 1];
      }
    }
  }

  lemma UnmergedSlice(xs: seq<Extent>, i: nat, j: nat)
    requires Unmerged(xs) && i <= j <= |xs|
    ensures Unmerged(xs[i..j])
  {
    var ys := xs[i..j];
    forall k | 0 <= k < |ys| - 1 ensures !Mergeable(ys[k], ys[k + 1]) {
      assert ys[k] == xs[i + k] && ys[k + 1] == xs[i + k + 1];
    }
  }

  lemma JoinedApart(xs: seq<Extent>, e: Extent)
    requires Ordered(xs) && Unmerged(xs) && e.len > 0 && AllDisjoint(xs, e.fofs, End(e))
    ensures
      var k := Rank(xs, e.fofs);
      var i, j := if MergesBack(xs, e) then k - 1 else k, if MergesFront(xs, e) then k + 1 else k;
      && (i > 0 ==> !Mergeable(xs[i - 1], Joined(xs, e)))
      && (j < |xs| ==> !Mergeable(Joined(xs, e), xs[j]))
  {
    hide Rank, Ordered, AllDisjoint;
    var k := Rank(xs, e.fofs);
    assert k > 1 ==> !Mergeable(xs[k - 2], xs[k - 1]);
    assert k + 1 < |xs| ==> !Mergeable(xs[k], xs[k + 1]);
  }

  /** Everything that could be merged is: the inserted extent has taken in both neighbours it continues. */
  lemma MergeInsertUnmerged(xs: seq<Extent>, e: Extent, alloc: bool)
    requires Ordered(xs) && Unmerged(xs) && e.len > 0 && AllDisjoint(xs, e.fofs, End(e))
    ensures Unmerged(MergeInsert(xs, e, alloc))
  {
    hide Rank, Ordered, AllDisjoint, MergesBack, MergesFront, Joined, Mergeable;
    var k := Rank(xs, e.fofs);
    var back, front := MergesBack(xs, e), MergesFront(xs, e);
    MergeBounds(xs, e);
    if back || front || alloc {
      var i, j := if back then k - 1 else k, if front then k + 1 else k;
      JoinedApart(xs, e);
      UnmergedSlice(xs, 0, i);
      UnmergedSlice(xs, j, |xs|);
      UnmergedAppend(xs[..i], [Joined(xs, e)]);
      UnmergedAppend(xs[..i] + [Joined(xs, e)], xs[j..]);
    }
  }

  lemma NoPair(xs: seq<Extent>, i: nat, j: nat)
    requires Ordered(xs) && Unmerged(xs) && i < |xs| && j < |xs|
    ensures !Mergeable(xs[i], xs[j])
  {
    assert i + 1 < j ==> End(xs[i]) <= xs[i + 1].fofs && End(xs[i + 1]) <= xs[j].fofs;
    assert j < i ==> End(xs[j]) <= xs[i].fofs;
  }

  /** `x` is `e`, or the part of it before lo or from hi on. */
  predicate PartOf(x: Extent, e: Extent, lo: nat, hi: nat) {
    && x.blk + e.fofs == e.blk + x.fofs
    && (x.fofs == e.fofs || x.fofs == hi)
    && (End(x) == End(e) || End(x) == lo)
  }

  lemma {:induction false} PunchParts(xs: seq<Extent>, lo: nat, hi: nat, alloc: bool, k: nat) returns (i: nat)
    requires lo <= hi && k < |Punch(xs, lo, hi, alloc)|
    ensures i < |xs| && PartOf(Punch(xs, lo, hi, alloc)[k], xs[i], lo, hi)
  {
    var init, e := xs[..|xs| - 1], xs[|xs| - 1];
    if k < |Punch(init, lo, hi, alloc)| {
      i := PunchParts(init, lo, hi, alloc, k);
    } else {
      i := |xs| - 1;
    }
  }

  /** The two sides of a cut cannot be merged again. */
  lemma PunchUnmerged(xs: seq<Extent>, lo: nat, hi: nat, alloc: bool)
    requires lo < hi && Ordered(xs) && Unmerged(xs)
    ensures Unmerged(Punch(xs, lo, hi, alloc))
  {
    hide Punch;
    var ys := Punch(xs, lo, hi, alloc);
    PunchOrdered(xs, lo, hi, alloc, if xs == [] then 0 else End(xs[|xs| - 1]));
    forall k | 0 <= k < |ys| - 1 ensures !Mergeable(ys[k], ys[k + 1]) {
      var i := PunchParts(xs, lo, hi, alloc, k);
      var j := PunchParts(xs, lo, hi, alloc, k + 1);
      NoPair(xs, i, j);
      PartsApart(ys[k], ys[k + 1], xs[i], xs[j], lo, hi);
    }
  }

  lemma PartsApart(x: Extent, y: Extent, e: Extent, f: Extent, lo: nat, hi: nat)
    requires lo < hi && x.len > 0 && y.len > 0 && Disjoint(x, lo, hi) && Disjoint(y, lo, hi)
    requires PartOf(x, e, lo, hi) && PartOf(y, f, lo, hi) && !Mergeable(e, f)
    ensures !Mergeable(x, y)
  {
  }
}
