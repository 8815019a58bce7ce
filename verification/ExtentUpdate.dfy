/**
 What one update of the extent cache does to a tree's extents and to its `largest` shortcut,
 as a function, and the three facts about it: it stays in agreement with the block map, it
 stays ordered, and a mapped range is found afterwards.
 */
module ExtentUpdate {
  import opened ExtentList

  /** __try_update_largest_extent. */
  function Grow(largest: Extent, e: Extent): Extent {
    if e.len > largest.len then e else largest
  }

  /** __drop_largest_extent. */
  function DropLargest(largest: Extent, fofs: nat, len: nat): Extent {
    if fofs < End(largest) && fofs + len > largest.fofs then largest.(len := 0) else largest
  }

  /** The right part of a split is inserted before the left part is offered. */
  function Offer(largest: Extent, pieces: seq<Extent>): Extent {
    if |pieces| == 0 then largest
    else if |pieces| == 1 then Grow(largest, pieces[0])
    else Grow(Grow(largest, pieces[1]), pieces[0])
  }

  /** `largest` after the extents that meet lo..hi have been cut. */
  function PunchLargest(largest: Extent, xs: seq<Extent>, lo: nat, hi: nat, alloc: bool): Extent
    requires lo <= hi
  {
    if xs == [] then largest
    else
      var before := PunchLargest(largest, xs[..|xs| - 1], lo, hi, alloc);
      var e := xs[|xs| - 1];
      if Disjoint(e, lo, hi) then before else Offer(before, Pieces(e, lo, hi, alloc))
  }

  predicate Meets(xs: seq<Extent>, lo: nat, hi: nat) {
    exists i :: 0 <= i < |xs| && !Disjoint(xs[i], lo, hi)
  }

  /** The node that holds `e` after MergeInsert; none when it needed one and got none. */
  function Inserted(xs: seq<Extent>, e: Extent, alloc: bool): seq<Extent> {
    if MergesBack(xs, e) || MergesFront(xs, e) || alloc then [Joined(xs, e)] else []
  }

  datatype Outcome = Outcome(extents: seq<Extent>, largest: Extent, gaveUp: bool)

  /** f2fs_update_extent_tree_range on a tree that is in use. */
  function Update(xs: seq<Extent>, largest: Extent, fofs: nat, blkaddr: nat, len: nat,
                  allocSplit: bool, allocInsert: bool): Outcome
  {
    var hi := fofs + len;
    var ys := Punch(xs, fofs, hi, allocSplit);
    var l1 := PunchLargest(DropLargest(largest, fofs, len), xs, fofs, hi, allocSplit);
    if blkaddr == 0 then Outcome(ys, l1, false)
    else
      var e := Extent(fofs, blkaddr, len);
      var l2 := Offer(l1, Inserted(ys, e, allocInsert));
      if Meets(xs, fofs, hi) && largest.len < MIN_EXTENT_LEN && l2.len < MIN_EXTENT_LEN
      then Outcome([], l2.(len := 0), true)
      else Outcome(MergeInsert(ys, e, allocInsert), l2, false)
  }

  lemma GrowAgrees(largest: Extent, pieces: seq<Extent>, bm: BlockMap)
    requires Agrees(largest, bm) && AllAgree(pieces, bm)
    ensures Agrees(Offer(largest, pieces), bm)
  {
  }

  lemma EmptyAgrees(e: Extent, bm: BlockMap)
    ensures Agrees(e.(len := 0), bm)
  {
  }

  lemma DropAgrees(largest: Extent, fofs: nat, len: nat, bm: BlockMap, bm': BlockMap)
    requires Agrees(largest, bm) && SameOutside(bm, bm', fofs, fofs + len)
    ensures Agrees(DropLargest(largest, fofs, len), bm')
  {
    var l := DropLargest(largest, fofs, len);
    forall q | Covers(l, q) ensures q in bm' && bm'[q] == l.blk + q - l.fofs {
      assert q in bm;
    }
  }

  lemma {:induction false} PunchLargestAgrees(largest: Extent, xs: seq<Extent>, lo: nat, hi: nat, alloc: bool,
                                              bm: BlockMap, bm': BlockMap)
    requires lo <= hi
    requires Agrees(largest, bm') && AllAgree(xs, bm) && SameOutside(bm, bm', lo, hi)
    ensures Agrees(PunchLargest(largest, xs, lo, hi, alloc), bm')
  {
    if xs != [] {
      var init, e := xs[..|xs| - 1], xs[|xs| - 1];
      PunchLargestAgrees(largest, init, lo, hi, alloc, bm, bm');
      PiecesAgree(e, lo, hi, alloc, bm, bm');
      GrowAgrees(PunchLargest(largest, init, lo, hi, alloc), Pieces(e, lo, hi, alloc), bm');
    }
  }

  /** The block map changed in the updated range only, and there it is what the caller says. */
  ghost predicate Announced(bm: BlockMap, bm': BlockMap, fofs: nat, blkaddr: nat, len: nat) {
    && SameOutside(bm, bm', fofs, fofs + len)
    && (blkaddr != 0 ==> Agrees(Extent(fofs, blkaddr, len), bm'))
  }

  /** Everything cached after the update agrees with the new block map. */
  lemma UpdateAgrees(xs: seq<Extent>, largest: Extent, fofs: nat, blkaddr: nat, len: nat,
                     allocSplit: bool, allocInsert: bool, bm: BlockMap, bm': BlockMap)
    requires AllAgree(xs, bm) && Agrees(largest, bm) && Announced(bm, bm', fofs, blkaddr, len)
    ensures
      var r := Update(xs, largest, fofs, blkaddr, len, allocSplit, allocInsert);
      AllAgree(r.extents, bm') && Agrees(r.largest, bm')
  {
    hide Agrees, SameOutside, Punch, PunchLargest, MergeInsert, DropLargest, Offer, Joined;
    var hi := fofs + len;
    PunchAgrees(xs, fofs, hi, allocSplit, bm, bm');
    DropAgrees(largest, fofs, len, bm, bm');
    var l0 := DropLargest(largest, fofs, len);
    PunchLargestAgrees(l0, xs, fofs, hi, allocSplit, bm, bm');
    if blkaddr != 0 {
      var e := Extent(fofs, blkaddr, len);
      var ys := Punch(xs, fofs, hi, allocSplit);
      MergeInsertAgrees(ys, e, allocInsert, bm');
      JoinedAgrees(ys, e, bm');
      GrowAgrees(PunchLargest(l0, xs, fofs, hi, allocSplit), Inserted(ys, e, allocInsert), bm');
      EmptyAgrees(Offer(PunchLargest(l0, xs, fofs, hi, allocSplit), Inserted(ys, e, allocInsert)), bm');
    }
  }

  lemma UpdateOrdered(xs: seq<Extent>, largest: Extent, fofs: nat, blkaddr: nat, len: nat,
                      allocSplit: bool, allocInsert: bool)
    requires Ordered(xs) && (blkaddr != 0 ==> len > 0)
    ensures Ordered(Update(xs, largest, fofs, blkaddr, len, allocSplit, allocInsert).extents)
  {
    PunchOrdered(xs, fofs, fofs + len, allocSplit, if xs == [] then 0 else End(xs[|xs| - 1]));
    if blkaddr != 0 {
      MergeInsertOrdered(Punch(xs, fofs, fofs + len, allocSplit), Extent(fofs, blkaddr, len), allocInsert);
    }
  }

  /** A mapped update that neither gives up nor runs out of memory makes its whole range hit, with the new addresses. */
  lemma UpdateHits(xs: seq<Extent>, largest: Extent, fofs: nat, blkaddr: nat, len: nat, allocSplit: bool)
    requires blkaddr != 0
    requires !Update(xs, largest, fofs, blkaddr, len, allocSplit, true).gaveUp
    ensures AllHit(Update(xs, largest, fofs, blkaddr, len, allocSplit, true).extents, Extent(fofs, blkaddr, len))
  {
    hide Punch, MergeInsert, PunchLargest;
    var ys := Punch(xs, fofs, fofs + len, allocSplit);
    var e := Extent(fofs, blkaddr, len);
    MergeInsertCovers(ys, e);
    var zs := MergeInsert(ys, e, true);
    var i :| 0 <= i < |zs| && zs[i].fofs <= e.fofs && End(e) <= End(zs[i]) && zs[i].blk + e.fofs == e.blk + zs[i].fofs;
    forall page: nat | Covers(e, page) ensures HitsAt(zs, page, BlockAt(e, page)) {
      assert Covers(zs[i], page) && BlockAt(zs[i], page) == BlockAt(e, page);
    }
  }

  /**
   Outside its range an update that does not give up keeps exactly the pages that survive the cut, at their
   blocks.
   */
  lemma UpdateKeeps(xs: seq<Extent>, largest: Extent, fofs: nat, blkaddr: nat, len: nat,
                    allocSplit: bool, allocInsert: bool, p: nat, b: int)
    requires !(fofs <= p < fofs + len)
    requires !Update(xs, largest, fofs, blkaddr, len, allocSplit, allocInsert).gaveUp
    ensures HitsAt(Update(xs, largest, fofs, blkaddr, len, allocSplit, allocInsert).extents, p, b) <==>
      KeptAt(xs, fofs, fofs + len, allocSplit, p, b)
  {
    hide Punch, PunchLargest, MergeInsert, Offer, KeptAt, HitsAt;
    PunchKeeps(xs, fofs, fofs + len, allocSplit, p, b);
    if blkaddr != 0 {
      MergeInsertKeeps(Punch(xs, fofs, fofs + len, allocSplit), Extent(fofs, blkaddr, len), allocInsert, p, b);
    }
  }

  /** No two nodes are left that could be one. */
  lemma UpdateUnmerged(xs: seq<Extent>, largest: Extent, fofs: nat, blkaddr: nat, len: nat,
                       allocSplit: bool, allocInsert: bool)
    requires Ordered(xs) && Unmerged(xs) && len > 0
    ensures Unmerged(Update(xs, largest, fofs, blkaddr, len, allocSplit, allocInsert).extents)
  {
    hide Punch, PunchLargest, MergeInsert, Offer;
    PunchUnmerged(xs, fofs, fofs + len, allocSplit);
    PunchOrdered(xs, fofs, fofs + len, allocSplit, if xs == [] then 0 else End(xs[|xs| - 1]));
    if blkaddr != 0 {
      MergeInsertUnmerged(Punch(xs, fofs, fofs + len, allocSplit), Extent(fofs, blkaddr, len), allocInsert);
    }
  }

  // ----- the largest extent

  /** The range cuts the extent and leaves 64 pages or more on one side. */
  predicate CutLong(e: Extent, lo: nat, hi: nat) {
    e.fofs < hi && lo < e.fofs + e.len && (lo - e.fofs >= 64 || e.fofs + e.len - hi >= 64)
  }

  ghost predicate LeavesLong(xs: seq<Extent>, lo: nat, hi: nat) {
    exists i :: 0 <= i < |xs| && CutLong(xs[i], lo, hi)
  }

  /** Extent l' is l after all of `news` were offered to it. */
  ghost predicate Offered(l: Extent, l': Extent, news: seq<Extent>) {
    && l.len <= l'.len
    && (forall i :: 0 <= i < |news| ==> news[i].len <= l'.len)
    && (l' == l || l' in news)
  }

  lemma OfferPieces(l: Extent, e: Extent, lo: nat, hi: nat, alloc: bool)
    requires lo <= hi && !Disjoint(e, lo, hi)
    ensures
      var ps := Pieces(e, lo, hi, alloc);
      Offered(l, Offer(l, ps), ps) && (Offer(l, ps).len >= 64 <==> l.len >= 64 || CutLong(e, lo, hi))
  {
  }

  lemma {:induction false} PunchedLargest(largest: Extent, xs: seq<Extent>, lo: nat, hi: nat, alloc: bool)
    requires lo <= hi
    ensures
      var ys, l := Punch(xs, lo, hi, alloc), PunchLargest(largest, xs, lo, hi, alloc);
      && l.len >= largest.len
      && (forall x :: x in ys && x !in xs ==> x.len <= l.len)
      && (l == largest || l in ys)
      && (l.len >= 64 <==> largest.len >= 64 || LeavesLong(xs, lo, hi))
  {
    hide Pieces, Offer, CutLong, LeavesLong;
    if xs == [] {
      LeavesNone(lo, hi);
    } else {
      var init, e := xs[..|xs| - 1], xs[|xs| - 1];
      PunchedLargest(largest, init, lo, hi, alloc);
      assert xs == init + [e];
      LeavesMore(init, e, lo, hi);
      if Disjoint(e, lo, hi) {
        PiecesWhole(e, lo, hi, alloc);
      } else {
        OfferPieces(PunchLargest(largest, init, lo, hi, alloc), e, lo, hi, alloc);
      }
    }
  }

  lemma PiecesWhole(e: Extent, lo: nat, hi: nat, alloc: bool)
    requires lo <= hi && Disjoint(e, lo, hi)
    ensures Pieces(e, lo, hi, alloc) == [e] && !CutLong(e, lo, hi)
  {
  }

  lemma LeavesNone(lo: nat, hi: nat)
    ensures !LeavesLong([], lo, hi)
  {
  }

  lemma LeavesMore(init: seq<Extent>, e: Extent, lo: nat, hi: nat)
    ensures LeavesLong(init + [e], lo, hi) <==> LeavesLong(init, lo, hi) || CutLong(e, lo, hi)
  {
    hide CutLong;
    var xs := init + [e];
    assert xs[|init|] == e;
    if i :| 0 <= i < |init| && CutLong(init[i], lo, hi) {
      assert xs[i] == init[i];
    }
  }

  /**
   `largest` after an update: no node the update made or cut is longer, and it is one of the nodes unless it
   is what it was before, emptied if the range meets it.
   */
  lemma LargestIsLongest(xs: seq<Extent>, largest: Extent, fofs: nat, blkaddr: nat, len: nat,
                         allocSplit: bool, allocInsert: bool)
    requires len > 0 && !Update(xs, largest, fofs, blkaddr, len, allocSplit, allocInsert).gaveUp
    ensures
      var r := Update(xs, largest, fofs, blkaddr, len, allocSplit, allocInsert);
      var met := largest.fofs < fofs + len && fofs < largest.fofs + largest.len;
      && (forall x :: x in r.extents && x !in xs ==> x.len <= r.largest.len)
      && (r.largest in r.extents || r.largest == if met then largest.(len := 0) else largest)
      && (!met ==> r.largest.len >= largest.len)
  {
    hide Punch, PunchLargest, MergesBack, MergesFront, Rank;
    var l0 := DropLargest(largest, fofs, len);
    PunchedLargest(l0, xs, fofs, fofs + len, allocSplit);
    if blkaddr != 0 {
      var ys := Punch(xs, fofs, fofs + len, allocSplit);
      var e := Extent(fofs, blkaddr, len);
      InsertedIsNew(ys, e, allocInsert, PunchLargest(l0, xs, fofs, fofs + len, allocSplit));
    }
  }

  lemma InsertedIsNew(ys: seq<Extent>, e: Extent, alloc: bool, l: Extent)
    requires e.len > 0
    ensures
      var zs, l' := MergeInsert(ys, e, alloc), Offer(l, Inserted(ys, e, alloc));
      && l'.len >= l.len
      && (forall x :: x in zs && x !in ys ==> x.len <= l'.len)
      && (l' == l || l' in zs)
      && (l in ys && l' == l ==> l in zs)
  {
    hide Rank, MergesBack, MergesFront, Joined;
    var k := Rank(ys, e.fofs);
    var zs := MergeInsert(ys, e, alloc);
    MergeBounds(ys, e);
    if MergesBack(ys, e) || MergesFront(ys, e) || alloc {
      var i, j := if MergesBack(ys, e) then k - 1 else k, if MergesFront(ys, e) then k + 1 else k;
      var m := Joined(ys, e);
      assert zs == ys[..i] + [m] + ys[j..];
      assert zs[i] == m;
      JoinedIsLonger(ys, e);
      if l in ys && l.len >= m.len {
        StaysIn(ys, i, j, m, l);
      }
    }
  }

  lemma JoinedIsLonger(ys: seq<Extent>, e: Extent)
    requires e.len > 0
    ensures
      var k := Rank(ys, e.fofs);
      && (MergesBack(ys, e) ==> ys[k - 1].len < Joined(ys, e).len)
      && (MergesFront(ys, e) ==> ys[k].len < Joined(ys, e).len)
  {
    hide Rank;
  }

  lemma StaysIn(ys: seq<Extent>, i: nat, j: nat, m: Extent, l: Extent)
    requires i <= j <= |ys| && l in ys
    requires forall t :: i <= t < j ==> ys[t] != l
    ensures l in ys[..i] + [m] + ys[j..]
  {
    var t :| 0 <= t < |ys| && ys[t] == l;
    var zs := ys[..i] + [m] + ys[j..];
    if t < i {
      assert zs[t] == l;
    } else {
      assert zs[t - j + i + 1] == l;
    }
  }

  /**
   An update gives the whole tree up exactly if it maps a range, cuts some extent, and neither the old largest
   extent, nor anything the cut leaves, nor the extent the range ends up in has 64 pages.
   */
  lemma GivesUp(xs: seq<Extent>, largest: Extent, fofs: nat, blkaddr: nat, len: nat,
                allocSplit: bool, allocInsert: bool)
    ensures
      var r := Update(xs, largest, fofs, blkaddr, len, allocSplit, allocInsert);
      var ys, e := Punch(xs, fofs, fofs + len, allocSplit), Extent(fofs, blkaddr, len);
      && (r.gaveUp <==>
          && blkaddr != 0 && largest.len < 64
          && (exists i :: 0 <= i < |xs| && xs[i].fofs < fofs + len && fofs < xs[i].fofs + xs[i].len)
          && !LeavesLong(xs, fofs, fofs + len)
          && (MergesBack(ys, e) || MergesFront(ys, e) || allocInsert ==> Joined(ys, e).len < 64))
      && (r.gaveUp ==> r.extents == [] && r.largest.len == 0)
  {
    hide Punch, PunchLargest, MergesBack, MergesFront, Joined, MergeInsert, LeavesLong;
    PunchedLargest(DropLargest(largest, fofs, len), xs, fofs, fofs + len, allocSplit);
    if Meets(xs, fofs, fofs + len) {
      var i :| 0 <= i < |xs| && !Disjoint(xs[i], fofs, fofs + len);
      assert xs[i].fofs < fofs + len && fofs < xs[i].fofs + xs[i].len;
    }
    if i :| 0 <= i < |xs| && xs[i].fofs < fofs + len && fofs < xs[i].fofs + xs[i].len {
      assert !Disjoint(xs[i], fofs, fofs + len);
    }
  }

  // ----- what the update loop needs about its prefix

  lemma PunchLargestDisjoint(largest: Extent, xs: seq<Extent>, ys: seq<Extent>, lo: nat, hi: nat, alloc: bool)
    requires lo <= hi && AllDisjoint(ys, lo, hi)
    ensures PunchLargest(largest, xs + ys, lo, hi, alloc) == PunchLargest(largest, xs, lo, hi, alloc)
    decreases |ys|
  {
    if ys == [] {
      assert xs + ys == xs;
    } else {
      var zs := xs + ys;
      assert zs[..|zs| - 1] == xs + ys[..|ys| - 1] && zs[|zs| - 1] == ys[|ys| - 1];
      PunchLargestDisjoint(largest, xs, ys[..|ys| - 1], lo, hi, alloc);
    }
  }
}
