/**
 Turning an inline directory into one kept in blocks.

 With i_dir_level 0 the whole area is copied into block 0, which is in the only bucket of level 0;
 otherwise every entry is added again by its hash.  Either way each name keeps its meaning.
 */
module InlineDir {
  import opened DentryArea
  import opened DirGeometry
  import opened Directory
  import FileType

  /** The inline area holds each name of `slots` once, at that slot, with its hash. */
  ghost predicate InlineOk(hashOf: string -> nat, a: Area, slots: map<string, nat>) {
    && WellFormed(a)
    && (forall h: nat :: Head(a, h) ==>
        NameAt(a, h) in slots && slots[NameAt(a, h)] == h && a.dentry[h].hash == hashOf(NameAt(a, h)))
    && (forall n :: n in slots ==> Head(a, slots[n]) && NameAt(a, slots[n]) == n)
  }

  ghost function InlineContents(a: Area, slots: map<string, nat>): map<string, Target>
    requires forall n :: n in slots ==> slots[n] < |a.dentry|
  {
    map n | n in slots :: Target(a.dentry[slots[n]].ino, a.dentry[slots[n]].ftype)
  }

  // ----- direct copy

  /** The inline bitmap, dentries and names copied over `page`; past them only the bitmap is cleared. */
  function CopyArea(src: Area, page: Area): Area
    requires Shaped(src) && Shaped(page) && |src.bitmap| <= |page.bitmap|
  {
    Area(src.bitmap + seq(|page.bitmap| - |src.bitmap|, _ => false),
         src.dentry + page.dentry[|src.dentry|..],
         src.filename + page.filename[|src.filename|..])
  }

  lemma CopyHeads(src: Area, page: Area)
    requires WellFormed(src) && Shaped(page) && |src.bitmap| <= |page.bitmap|
    ensures
      var dst := CopyArea(src, page);
      && Shaped(dst) && |dst.bitmap| == |page.bitmap|
      && (forall h: nat :: Head(dst, h) <==> Head(src, h))
      && (forall h: nat :: Head(src, h) ==> dst.dentry[h] == src.dentry[h])
  {
    hide Slots;
  }

  lemma CopyName(src: Area, page: Area, h: nat)
    requires WellFormed(src) && Shaped(page) && |src.bitmap| <= |page.bitmap| && Head(src, h)
    ensures h < |CopyArea(src, page).dentry| && NameAt(CopyArea(src, page), h) == NameAt(src, h)
  {
    var dst := CopyArea(src, page);
    SlotsFit(src.dentry[h].nameLen);
    assert SLOT_LEN * h + src.dentry[h].nameLen <= SLOT_LEN * RunEnd(src, h) <= |src.filename|;
    var lo, hi := SLOT_LEN * h, SLOT_LEN * h + src.dentry[h].nameLen;
    assert dst.filename[lo..hi] == src.filename[lo..hi];
  }

  lemma CopyWellFormed(src: Area, page: Area)
    requires WellFormed(src) && Shaped(page) && |src.bitmap| <= |page.bitmap|
    ensures WellFormed(CopyArea(src, page))
  {
    CopyHeads(src, page);
    hide Slots;
    var dst := CopyArea(src, page);
    forall h: nat, i: nat | InRun(dst, h, i) && h != i
      ensures i < |dst.bitmap| && dst.bitmap[i] && dst.dentry[i].nameLen == 0
    {
      assert InRun(src, h, i);
    }
    forall i: nat | i < |dst.bitmap| && dst.bitmap[i] ensures exists h: nat :: InRun(dst, h, i) {
      var h: nat :| InRun(src, h, i);
      assert InRun(dst, h, i);
    }
  }

  /** At i_dir_level 0 every hash belongs in block 0. */
  lemma BlockZeroTakesAll(g: Geometry, hash: nat)
    requires Sane(g) && g.dirLevel == 0 && g.maxDepth >= 2
    ensures Placed(g, 1, hash, 0)
  {
    assert DirBuckets(g, 0) == 1;
    assert InBucket(g, 0, hash % DirBuckets(g, 0), 0);
  }

  ghost predicate SameEntries(src: Area, dst: Area) {
    && |dst.dentry| >= |src.dentry|
    && (forall h: nat :: Head(dst, h) <==> Head(src, h))
    && (forall h: nat :: Head(src, h) ==> dst.dentry[h] == src.dentry[h] && NameAt(dst, h) == NameAt(src, h))
  }

  lemma CopyKeepsEntries(src: Area, page: Area)
    requires WellFormed(src) && Shaped(page) && |src.bitmap| <= |page.bitmap|
    ensures SameEntries(src, CopyArea(src, page)) && |CopyArea(src, page).bitmap| == |page.bitmap|
  {
    hide WellFormed, Slots, NameAt, CopyArea;
    CopyHeads(src, page);
    ShapedArea(src);
    forall h: nat | Head(src, h) ensures NameAt(CopyArea(src, page), h) == NameAt(src, h) {
      CopyName(src, page, h);
    }
  }

  /** One block 0 with the entries of the inline area is a well-formed directory of depth 1. */
  lemma BlockZeroOk(g: Geometry, hashOf: string -> nat, src: Area, dst: Area, slots: map<string, nat>)
    requires Sane(g) && g.dirLevel == 0 && g.maxDepth >= 2 && InlineOk(hashOf, src, slots) && SameEntries(src, dst)
    ensures
      var blocks: Blocks := map[0 := dst];
      var index := map n | n in slots :: Loc(0, slots[n]);
      && EntriesOk(g, hashOf, blocks, 1, index) && IndexOk(blocks, index)
      && ContentsOf(blocks, index) == InlineContents(src, slots)
  {
    hide WellFormed, Slots, NameAt, Placed;
    var blocks: Blocks := map[0 := dst];
    var index := map n | n in slots :: Loc(0, slots[n]);
    forall l: Loc | Live(blocks, l) ensures Placed(g, 1, DentryOf(blocks, l).hash, l.block) {
      BlockZeroTakesAll(g, DentryOf(blocks, l).hash);
    }
    assert IndexOk(blocks, index);
  }

  lemma CopiedOk(g: Geometry, hashOf: string -> nat, src: Area, page: Area, slots: map<string, nat>, npages: nat)
    requires Sane(g) && g.dirLevel == 0 && g.maxDepth >= 2 && InlineOk(hashOf, src, slots)
    requires Shaped(page) && |src.bitmap| <= |page.bitmap| == g.perBlock && npages > 0
    ensures
      var blocks: Blocks := map[0 := CopyArea(src, page)];
      var index := map n | n in slots :: Loc(0, slots[n]);
      && DirOk(g, hashOf, blocks, npages, 1, index)
      && ContentsOf(blocks, index) == InlineContents(src, slots)
  {
    hide WellFormed, Slots, NameAt, Placed, CopyArea, SameEntries, EntriesOk, IndexOk;
    ShapedArea(src);
    CopyKeepsEntries(src, page);
    CopyWellFormed(src, page);
    BlockZeroOk(g, hashOf, src, CopyArea(src, page), slots);
  }

  /** f2fs_move_inline_dirents; `page` is what the page of block 0 holds before. */
  method MoveInlineDirents(dir: Directory, src: Area, page: Area, ghost slots: map<string, nat>)
    requires dir.Valid() && dir.blocks == map[] && dir.clevel <= 1
    requires dir.g.dirLevel == 0 && dir.g.maxDepth >= 2
    requires InlineOk(dir.hashOf, src, slots) && Shaped(page) && |src.bitmap| <= |page.bitmap| == dir.g.perBlock
    modifies dir`blocks, dir`npages, dir`depth, dir`index
    ensures dir.Valid() && dir.depth == 1 && dir.npages == Reached(old(dir.npages), 0)
    ensures dir.Contents() == InlineContents(src, slots)
    // every entry keeps its slot, "." and ".." included
    ensures forall n :: n in slots ==> n in dir.index && dir.index[n] == Loc(0, slots[n])
  {
    hide WellFormed, EntriesOk, BlocksOk, IndexOk, CopyArea, InlineOk, ContentsOf;
    var npages := if dir.npages < 1 then 1 else dir.npages;
    CopiedOk(dir.g, dir.hashOf, src, page, slots, npages);
    ShapedSource(dir.hashOf, src, slots);
    dir.blocks := map[0 := CopyArea(src, page)];
    dir.index := map n | n in slots :: Loc(0, slots[n]);
    dir.depth := 1;
    dir.npages := npages;
  }

  lemma ShapedSource(hashOf: string -> nat, a: Area, slots: map<string, nat>)
    requires InlineOk(hashOf, a, slots)
    ensures Shaped(a) && WellFormed(a) && forall n :: n in slots ==> slots[n] < |a.dentry|
  {
    hide Slots, NameAt;
  }

  // ----- rehash

  /** The type an entry has after f2fs_add_inline_entries: read as DT_*, shifted to a mode, stored again. */
  function Retype(ftype: nat): nat {
    FileType.TypeByMode(FileType.DeType(ftype))
  }

  /** The entries that start before p, with the types they are stored with. */
  ghost function MovedContents(a: Area, slots: map<string, nat>, p: nat): map<string, Target>
    requires forall n :: n in slots ==> slots[n] < |a.dentry|
  {
    map n | n in slots && slots[n] < p :: Target(a.dentry[slots[n]].ino, Retype(a.dentry[slots[n]].ftype))
  }

  /** Contents grow by the one name whose head lies in p .. end. */
  lemma MovedUpTo(a: Area, slots: map<string, nat>, p: nat, end: nat, name: string)
    requires forall n :: n in slots ==> slots[n] < |a.dentry|
    requires p < end && name in slots && slots[name] == p
    requires forall n :: n in slots && p <= slots[n] < end ==> n == name
    ensures p < |a.dentry| && name !in MovedContents(a, slots, p)
    ensures MovedContents(a, slots, end) ==
      MovedContents(a, slots, p)[name := Target(a.dentry[p].ino, Retype(a.dentry[p].ftype))]
  {
    hide Retype;
  }

  lemma OneInRun(hashOf: string -> nat, a: Area, slots: map<string, nat>, p: nat, end: nat)
    requires InlineOk(hashOf, a, slots) && Head(a, p) && p < end
    requires forall h: nat :: p < h < end ==> !Head(a, h)
    ensures NameAt(a, p) in slots && slots[NameAt(a, p)] == p && a.dentry[p].hash == hashOf(NameAt(a, p))
    ensures forall n :: n in slots && p <= slots[n] < end ==> n == NameAt(a, p)
  {
    hide WellFormed, Slots, NameAt;
    forall n | n in slots && p <= slots[n] < end ensures n == NameAt(a, p) {
      assert Head(a, slots[n]);
    }
  }

  lemma NoneAtHole(hashOf: string -> nat, a: Area, slots: map<string, nat>, p: nat)
    requires InlineOk(hashOf, a, slots) && p < |a.bitmap| && !a.bitmap[p]
    requires forall n :: n in slots ==> slots[n] < |a.dentry|
    ensures MovedContents(a, slots, p + 1) == MovedContents(a, slots, p)
  {
    hide Slots, NameAt, Retype;
    forall n | n in slots ensures slots[n] != p {
      assert Head(a, slots[n]);
    }
  }

  lemma MovedOne(hashOf: string -> nat, a: Area, slots: map<string, nat>, p: nat)
    requires InlineOk(hashOf, a, slots) && Boundary(a, p) && p < |a.bitmap|
    requires forall n :: n in slots ==> slots[n] < |a.dentry|
    ensures !a.bitmap[p] ==> MovedContents(a, slots, p + 1) == MovedContents(a, slots, p) && Boundary(a, p + 1)
    ensures a.bitmap[p] ==>
      && Head(a, p) && p < RunEnd(a, p) <= |a.bitmap| && Boundary(a, RunEnd(a, p))
      && NameAt(a, p) !in MovedContents(a, slots, p) && NameAt(a, p) in slots
      && 0 < |NameAt(a, p)| <= NAME_LEN && a.dentry[p].hash == hashOf(NameAt(a, p))
      && MovedContents(a, slots, RunEnd(a, p)) ==
        MovedContents(a, slots, p)[NameAt(a, p) := Target(a.dentry[p].ino, Retype(a.dentry[p].ftype))]
  {
    StepRun(a, p);
    if a.bitmap[p] {
      NameLength(a, p);
      OneInRun(hashOf, a, slots, p, RunEnd(a, p));
      MovedUpTo(a, slots, p, RunEnd(a, p), NameAt(a, p));
    } else {
      NoneAtHole(hashOf, a, slots, p);
    }
  }

  lemma NameLength(a: Area, h: nat)
    requires WellFormed(a) && Head(a, h)
    ensures |NameAt(a, h)| == a.dentry[h].nameLen <= NAME_LEN
  {
    SlotsFit(a.dentry[h].nameLen);
    assert SLOT_LEN * h + a.dentry[h].nameLen <= SLOT_LEN * RunEnd(a, h) <= |a.filename|;
  }

  /** Names are stored under slots; `.` and `..` come first and go to slots 0 and 1 of block 0. */
  ghost predicate DotsFirst(a: Area) {
    Head(a, 0) && NameAt(a, 0) == "." && Head(a, 1) && NameAt(a, 1) == ".."
  }

  /** What has become of the two dot entries once the slots before p are moved. */
  ghost predicate DotsStored(g: Geometry, blocks: Blocks, index: map<string, Loc>, p: nat) {
    && (p == 0 ==> blocks == map[])
    && (p >= 1 ==> "." in index && index["."] == Loc(0, 0))
    && (p == 1 ==> 0 in blocks && 1 < |blocks[0].bitmap| == g.perBlock && blocks[0].bitmap[0] && !blocks[0].bitmap[1])
    && (p >= 2 ==> ".." in index && index[".."] == Loc(0, 1))
  }

  /** A one-slot name with hash 0 goes to the first free slot of block 0 when that block has one. */
  lemma FitsInBlockZero(g: Geometry, blocks: Blocks, fname: FileName, l: Loc, slot: nat)
    requires Sane(g) && LowestFit(g, blocks, 0, fname, l) && fname.hash == 0 && Slots(|fname.name|) == 1
    requires 0 in blocks ==> |blocks[0].bitmap| == g.perBlock
    requires slot < g.perBlock && !AreaOf(g, blocks, 0).bitmap[slot]
    requires forall i :: 0 <= i < slot ==> AreaOf(g, blocks, 0).bitmap[i]
    ensures l == Loc(0, slot)
  {
    hide ZeroArea;
    ZeroSize(g.perBlock);
    assert FreeRun(AreaOf(g, blocks, 0).bitmap, slot, 1);
    assert InBucket(g, 0, fname.hash % DirBuckets(g, 0), 0);
    assert LevelHasRoom(g, blocks, 0, fname);
    assert FirstFit(g, blocks, 0, fname, l);
    assert l.block == 0;
    assert !AreaOf(g, blocks, 0).bitmap[l.slot];
  }

  lemma ZeroSize(n: nat)
    ensures |ZeroArea(n).bitmap| == n && forall i :: 0 <= i < n ==> !ZeroArea(n).bitmap[i]
  {
  }

  lemma DotSlots(a: Area)
    requires WellFormed(a) && DotsFirst(a)
    ensures RunEnd(a, 0) == 1 && RunEnd(a, 1) == 2
  {
    NameLength(a, 0);
    NameLength(a, 1);
  }

  /** One more entry is stored; the dot entries end up where they belong and stay there. */
  lemma StoreDots(g: Geometry, hashOf: string -> nat, src: Area, slots: map<string, nat>, blocks: Blocks,
                  index: map<string, Loc>,
                  blocks': Blocks, index': map<string, Loc>, p: nat, fname: FileName, ino: nat, ftype: nat)
    requires Sane(g) && InlineOk(hashOf, src, slots) && DotsFirst(src) && hashOf(".") == hashOf("..") == 0
    requires Head(src, p) && fname.name == NameAt(src, p) && fname.hash == hashOf(fname.name)
    requires DotsStored(g, blocks, index, p)
    requires fname.name in index' && index' == index[fname.name := index'[fname.name]]
    requires LowestFit(g, blocks, 0, fname, index'[fname.name])
    requires StoredAt(g, blocks, blocks', index'[fname.name], fname, ino, ftype)
    ensures DotsStored(g, blocks', index', RunEnd(src, p))
  {
    DotSlots(src);
    hide WellFormed, NameAt, LowestFit, ZeroArea;
    ZeroSize(g.perBlock);
    SlotsFit(src.dentry[p].nameLen);
    if p == 0 {
      FitsInBlockZero(g, blocks, fname, index'[fname.name], 0);
    } else if p == 1 {
      FitsInBlockZero(g, blocks, fname, index'[fname.name], 1);
    } else {
      assert fname.name != "." && fname.name != "..";
    }
  }

  lemma StartMove(a: Area, slots: map<string, nat>)
    requires forall n :: n in slots ==> slots[n] < |a.dentry|
    ensures Boundary(a, 0) && MovedContents(a, slots, 0) == map[]
  {
  }

  lemma EmptyOk(g: Geometry, hashOf: string -> nat, npages: nat)
    requires Sane(g)
    ensures DirOk(g, hashOf, map[], npages, 0, map[]) && ContentsOf(map[], map[]) == map[]
  {
  }

  lemma EmptyDir(g: Geometry, hashOf: string -> nat, npages: nat, depth: nat, index: map<string, Loc>)
    requires DirOk(g, hashOf, map[], npages, depth, index)
    ensures ContentsOf(map[], index) == map[]
  {
    assert forall n :: n in index ==> Live(map[], index[n]);
  }

  // ----- when the rehash succeeds

  /** In no block is a slot from p on in use. */
  ghost predicate TailFree(blocks: Blocks, p: nat) {
    forall b, i: nat :: b in blocks && p <= i < |blocks[b].bitmap| ==> !blocks[b].bitmap[i]
  }

  /** With the slots from p on free, a name that ends below the block size fits at level 0, at p or before. */
  lemma FitsAtLevelZero(g: Geometry, blocks: Blocks, npages: nat, fname: FileName, p: nat)
    requires Sane(g) && BlocksOk(g, blocks, npages) && TailFree(blocks, p) && p + Slots(|fname.name|) <= g.perBlock
    ensures LevelHasRoom(g, blocks, 0, fname)
    ensures forall b: nat :: FreeRun(AreaOf(g, blocks, b).bitmap, p, Slots(|fname.name|))
  {
    hide Slots, WellFormed, ZeroArea;
    ZeroSize(g.perBlock);
    var idx := fname.hash % DirBuckets(g, 0);
    var b0 := BucketStart(g, 0, idx);
    assert InBucket(g, 0, idx, b0);
    forall b: nat ensures FreeRun(AreaOf(g, blocks, b).bitmap, p, Slots(|fname.name|)) {
    }
    assert b0 in blocks ==> FreeRun(blocks[b0].bitmap, p, Slots(|fname.name|));
  }

  /** First fit puts the name at p or before, so the slots from its end on stay free. */
  lemma StoreTail(g: Geometry, blocks: Blocks, npages: nat, blocks': Blocks, l: Loc, fname: FileName, ino: nat,
                  ftype: nat, p: nat)
    requires Sane(g) && BlocksOk(g, blocks, npages) && TailFree(blocks, p) && p + Slots(|fname.name|) <= g.perBlock
    requires LowestFit(g, blocks, 0, fname, l) && StoredAt(g, blocks, blocks', l, fname, ino, ftype)
    ensures TailFree(blocks', p + Slots(|fname.name|))
  {
    FitsAtLevelZero(g, blocks, npages, fname, p);
    ZeroSize(g.perBlock);
    FitSlot(g, blocks, fname, l, p);
    hide Slots, WellFormed, ZeroArea, LowestFit, BlocksOk;
    forall b, i: nat | b in blocks' && p + Slots(|fname.name|) <= i < |blocks'[b].bitmap|
      ensures !blocks'[b].bitmap[i]
    {
      if b != l.block {
        assert AreaOf(g, blocks', b) == AreaOf(g, blocks, b);
      }
    }
  }

  lemma FitSlot(g: Geometry, blocks: Blocks, fname: FileName, l: Loc, p: nat)
    requires Sane(g) && LowestFit(g, blocks, 0, fname, l)
    requires forall b: nat :: FreeRun(AreaOf(g, blocks, b).bitmap, p, Slots(|fname.name|))
    ensures l.slot <= p
  {
    hide Slots, ZeroArea, FreeRun, InBucket;
    assert FreeRun(AreaOf(g, blocks, l.block).bitmap, p, Slots(|fname.name|));
  }

  lemma AllMoved(a: Area, slots: map<string, nat>)
    requires Shaped(a) && forall n :: n in slots ==> slots[n] < |a.dentry|
    ensures MovedContents(a, slots, |a.bitmap|).Keys == slots.Keys
  {
    hide Retype;
  }

  /** Where the rehash stands in a directory that may still grow, and in one that may not. */
  ghost predicate RehashRoom(blocks: Blocks, contents: map<string, Target>, depth: nat, depth0: nat, maxDepth: nat,
                             p: nat)
  {
    if depth0 < maxDepth then (depth == depth0 || depth == 1) && depth < maxDepth && TailFree(blocks, p)
    else depth == depth0 && contents == map[]
  }

  /** f2fs_move_rehashed_dirents; on failure the blocks are punched and the inline area stays. */
  method MoveRehashedDirents(dir: Directory, src: Area, ghost slots: map<string, nat>) returns (ok: bool)
    requires dir.Valid() && dir.blocks == map[] && dir.clevel == 0
    requires InlineOk(dir.hashOf, src, slots)
    modifies dir`blocks, dir`npages, dir`depth, dir`index, dir`chash
    ensures dir.Valid()
    ensures |src.bitmap| <= dir.g.perBlock && dir.g.maxDepth >= 2 ==>
      (ok <==> slots == map[] || old(dir.depth) < dir.g.maxDepth)
    ensures ok ==> forall n :: n in slots ==> slots[n] < |src.dentry|
    ensures ok ==> dir.Contents() == MovedContents(src, slots, |src.bitmap|)
    ensures ok && DotsFirst(src) && dir.hashOf(".") == dir.hashOf("..") == 0 ==>
      "." in dir.index && dir.index["."] == Loc(0, 0) && ".." in dir.index && dir.index[".."] == Loc(0, 1)
    ensures !ok ==> dir.Contents() == map[] && dir.blocks == map[] && dir.npages == 1 && dir.depth == 0
  {
    hide RehashRoom, TailFree, LevelHasRoom, RoomBelow, Sane, EntriesOk, BlocksOk, IndexOk, InlineOk,
      WellFormed, Boundary, Slots, NameAt, Retype, MovedContents, LowestFit, StoredAt, ContentsOf, ZeroArea, WithEntry;
    ShapedSource(dir.hashOf, src, slots);
    EmptyDir(dir.g, dir.hashOf, dir.npages, dir.depth, dir.index);
    StartMove(src, slots);
    var bitPos := 0;
    ghost var fits, depth0 := |src.bitmap| <= dir.g.perBlock && dir.g.maxDepth >= 2, dir.depth;
    RoomAtStart(dir.depth, dir.g.maxDepth);
    AllMoved(src, slots);
    ghost var dots := DotsFirst(src) && dir.hashOf(".") == dir.hashOf("..") == 0;
    while bitPos < |src.bitmap|
      invariant 0 <= bitPos <= |src.bitmap| && Boundary(src, bitPos)
      invariant dir.Valid() && dir.clevel == 0
      invariant dir.Contents() == MovedContents(src, slots, bitPos)
      invariant dots ==> DotsStored(dir.g, dir.blocks, dir.index, bitPos)
      invariant fits ==> RehashRoom(dir.blocks, dir.Contents(), dir.depth, depth0, dir.g.maxDepth, bitPos)
      decreases |src.bitmap| - bitPos
    {
      MovedOne(dir.hashOf, src, slots, bitPos);
      if !src.bitmap[bitPos] {
        RoomAtHole(dir.blocks, dir.Contents(), dir.depth, depth0, dir.g.maxDepth, bitPos);
        assert dots ==> bitPos >= 2;
        bitPos := bitPos + 1;
        continue;
      }
      var de := src.dentry[bitPos];
      var fname := FileName(NameAt(src, bitPos), de.hash);
      ghost var blocks, index, npages, depth, contents := dir.blocks, dir.index, dir.npages, dir.depth, dir.Contents();
      var added := dir.AddRegularEntry(fname, de.ino, Retype(de.ftype));
      if !added {
        RoomMeansAdded(blocks, contents, depth, depth0, dir.g.maxDepth, bitPos);
        Recover(dir);
        return false;
      }
      if dots {
        StoreDots(dir.g, dir.hashOf, src, slots, blocks, index, dir.blocks, dir.index, bitPos, fname, de.ino,
                  Retype(de.ftype));
      }
      if fits {
        RoomAfter(dir.g, blocks, npages, contents, depth, depth0, dir.blocks, dir.Contents(), dir.depth,
                  dir.index[fname.name], fname, de.ino, Retype(de.ftype), src, bitPos);
      }
      bitPos := RunEnd(src, bitPos);
    }
    RoomAtEnd(dir.blocks, dir.Contents(), dir.depth, depth0, dir.g.maxDepth, bitPos);
    return true;
  }

  /** Punching the new pages and going back to the inline area; i_size becomes MAX_INLINE_DATA, less than a page. */
  method Recover(dir: Directory)
    requires dir.Valid() && dir.clevel == 0
    modifies dir`blocks, dir`npages, dir`depth, dir`index
    ensures dir.Valid() && dir.Contents() == map[]
    ensures dir.blocks == map[] && dir.npages == 1 && dir.depth == 0
  {
    hide EntriesOk, BlocksOk, IndexOk, ContentsOf;
    dir.blocks, dir.npages, dir.index, dir.depth := map[], 1, map[], 0;
    EmptyOk(dir.g, dir.hashOf, dir.npages);
  }

  lemma RoomAtStart(depth: nat, maxDepth: nat)
    requires depth <= maxDepth
    ensures RehashRoom(map[], map[], depth, depth, maxDepth, 0)
  {
  }

  lemma RoomAtHole(blocks: Blocks, contents: map<string, Target>, depth: nat, depth0: nat, maxDepth: nat, p: nat)
    ensures RehashRoom(blocks, contents, depth, depth0, maxDepth, p) ==>
      RehashRoom(blocks, contents, depth, depth0, maxDepth, p + 1)
  {
  }

  lemma RoomMeansAdded(blocks: Blocks, contents: map<string, Target>, depth: nat, depth0: nat, maxDepth: nat, p: nat)
    ensures RehashRoom(blocks, contents, depth, depth0, maxDepth, p) && depth >= maxDepth ==> depth0 >= maxDepth
  {
  }

  lemma RoomAtEnd(blocks: Blocks, contents: map<string, Target>, depth: nat, depth0: nat, maxDepth: nat, p: nat)
    ensures RehashRoom(blocks, contents, depth, depth0, maxDepth, p) && depth0 >= maxDepth ==> contents == map[]
  {
  }

  lemma RoomAfter(g: Geometry, blocks: Blocks, npages: nat, contents: map<string, Target>, depth: nat, depth0: nat,
                  blocks': Blocks, contents': map<string, Target>, depth': nat, l: Loc, fname: FileName, ino: nat,
                  ftype: nat, src: Area, p: nat)
    requires RehashRoom(blocks, contents, depth, depth0, g.maxDepth, p) && depth < g.maxDepth && g.maxDepth >= 2
    requires Sane(g) && BlocksOk(g, blocks, npages) && WellFormed(src) && Head(src, p) && fname.name == NameAt(src, p)
    requires RunEnd(src, p) <= |src.bitmap| <= g.perBlock
    requires LowestFit(g, blocks, 0, fname, l) && StoredAt(g, blocks, blocks', l, fname, ino, ftype)
    requires depth' == if RoomBelow(g, blocks, 0, depth, fname) then depth else depth + 1
    ensures RehashRoom(blocks', contents', depth', depth0, g.maxDepth, RunEnd(src, p))
  {
    NameLength(src, p);
    hide WellFormed, Slots, NameAt, BlocksOk, TailFree, LowestFit, StoredAt, LevelHasRoom;
    FitsAtLevelZero(g, blocks, npages, fname, p);
    StoreTail(g, blocks, npages, blocks', l, fname, ino, ftype, p);
    assert depth > 0 ==> RoomBelow(g, blocks, 0, depth, fname);
  }

  /** Same names, same inodes, same types to every reader; the stored type only changes if it was no type at all. */
  ghost predicate SameMeaning(m: map<string, Target>, m': map<string, Target>) {
    && m.Keys == m'.Keys
    && (forall n :: n in m ==>
        && m'[n].ino == m[n].ino
        && FileType.DeType(m'[n].ftype) == FileType.DeType(m[n].ftype)
        && (m[n].ftype < FileType.FT_MAX ==> m'[n].ftype == m[n].ftype))
  }

  lemma MovedSame(a: Area, slots: map<string, nat>)
    requires Shaped(a) && forall n :: n in slots ==> slots[n] < |a.dentry|
    ensures SameMeaning(InlineContents(a, slots), MovedContents(a, slots, |a.bitmap|))
  {
    var m, m' := InlineContents(a, slots), MovedContents(a, slots, |a.bitmap|);
    forall n | n in m
      ensures m'[n].ino == m[n].ino && m'[n].ftype == if m[n].ftype < FileType.FT_MAX then m[n].ftype else 0
    {
      FileType.TypeRoundTrip(m[n].ftype);
    }
  }

  /** do_convert_inline_dir; false is an error of the rehash, which leaves no blocks behind. */
  method ConvertInlineDir(dir: Directory, src: Area, page: Area, ghost slots: map<string, nat>) returns (ok: bool)
    requires dir.Valid() && dir.blocks == map[] && dir.clevel == 0 && dir.g.maxDepth >= 2
    requires InlineOk(dir.hashOf, src, slots) && Shaped(page) && |src.bitmap| <= |page.bitmap| == dir.g.perBlock
    requires forall n :: n in slots ==> slots[n] < |src.dentry|
    modifies dir`blocks, dir`npages, dir`depth, dir`index, dir`chash
    ensures dir.Valid()
    ensures ok <==> dir.g.dirLevel == 0 || slots == map[] || old(dir.depth) < dir.g.maxDepth
    ensures ok ==> SameMeaning(InlineContents(src, slots), dir.Contents())
    ensures ok && DotsFirst(src) && dir.hashOf(".") == dir.hashOf("..") == 0 ==>
      "." in dir.index && dir.index["."] == Loc(0, 0) && ".." in dir.index && dir.index[".."] == Loc(0, 1)
    ensures !ok ==> dir.Contents() == map[] && dir.blocks == map[] && dir.npages == 1 && dir.depth == 0
  {
    hide EntriesOk, BlocksOk, IndexOk, WellFormed, NameAt, Slots, ContentsOf, MovedContents;
    ShapedSource(dir.hashOf, src, slots);
    if dir.g.dirLevel == 0 {
      MoveInlineDirents(dir, src, page, slots);
      ok := true;
    } else {
      ok := MoveRehashedDirents(dir, src, slots);
      MovedSame(src, slots);
    }
  }
}
