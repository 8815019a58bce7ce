/**
 The hashed multi-level directory: lookup, insertion and removal of names.

 A name hashed to h lives in some block of bucket h mod nbucket of some level.  The directory is
 a map from names to (inode, type); `Contents` is that map and each method is stated against it.
 */
module Directory {
  import opened Prelude
  import opened DentryArea
  import opened DirGeometry

  /** What a name stands for. */
  datatype Target = Target(ino: nat, ftype: nat)

  /** Where an entry is stored. */
  datatype Loc = Loc(block: nat, slot: nat)

  type Blocks = map<nat, Area>

  ghost predicate Live(blocks: Blocks, l: Loc) {
    l.block in blocks && Head(blocks[l.block], l.slot)
  }

  ghost function NameOf(blocks: Blocks, l: Loc): string
    requires Live(blocks, l)
  {
    NameAt(blocks[l.block], l.slot)
  }

  ghost function DentryOf(blocks: Blocks, l: Loc): Dentry
    requires Live(blocks, l)
  {
    blocks[l.block].dentry[l.slot]
  }

  /** Block b is where a name with this hash may live. */
  ghost predicate Placed(g: Geometry, depth: nat, hash: nat, b: nat)
    requires Sane(g)
  {
    exists level: nat :: level < depth && InBucket(g, level, hash % DirBuckets(g, level), b)
  }

  // ----- the invariant, in terms of values

  ghost predicate BlocksOk(g: Geometry, blocks: Blocks, npages: nat) {
    forall b :: b in blocks ==> b < npages && WellFormed(blocks[b]) && |blocks[b].bitmap| == g.perBlock
  }

  /** Every stored entry is the one the index knows under its name, in a block of its hash. */
  ghost predicate EntriesOk(g: Geometry, hashOf: string -> nat, blocks: Blocks, depth: nat, index: map<string, Loc>)
    requires Sane(g)
  {
    forall l: Loc :: Live(blocks, l) ==>
      && NameOf(blocks, l) in index && index[NameOf(blocks, l)] == l
      && DentryOf(blocks, l).hash == hashOf(NameOf(blocks, l))
      && Placed(g, depth, DentryOf(blocks, l).hash, l.block)
  }

  ghost predicate IndexOk(blocks: Blocks, index: map<string, Loc>) {
    forall n :: n in index ==> Live(blocks, index[n]) && NameOf(blocks, index[n]) == n
  }

  ghost predicate DirOk(g: Geometry, hashOf: string -> nat, blocks: Blocks, npages: nat, depth: nat,
                        index: map<string, Loc>)
  {
    Sane(g) && BlocksOk(g, blocks, npages) && EntriesOk(g, hashOf, blocks, depth, index) && IndexOk(blocks, index)
  }

  /** The directory as a map. */
  ghost function ContentsOf(blocks: Blocks, index: map<string, Loc>): (m: map<string, Target>)
    requires IndexOk(blocks, index)
    ensures m.Keys == index.Keys
  {
    map n | n in index :: Target(DentryOf(blocks, index[n]).ino, DentryOf(blocks, index[n]).ftype)
  }

  /** Pages of a directory once block b is written. */
  function Reached(npages: nat, b: nat): nat {
    if npages < b + 1 then b + 1 else npages
  }

  /** A block as f2fs_get_new_data_page hands it out. */
  function ZeroArea(n: nat): Area {
    Area(seq(n, _ => false), seq(n, _ => Dentry(0, 0, 0, 0)), seq(SLOT_LEN * n, _ => '\0'))
  }

  lemma ZeroAreaEmpty(n: nat)
    ensures WellFormed(ZeroArea(n)) && forall h: nat :: !Head(ZeroArea(n), h)
  {
  }

  // ----- lookup

  /** No entry of block b matches. */
  ghost predicate NoMatchIn(blocks: Blocks, b: nat, fname: FileName) {
    b in blocks ==> forall h: nat :: Head(blocks[b], h) ==> !Matches(blocks[b], h, fname)
  }

  /** An entry with the name, if there is one, is the one the index knows; its block is in a bucket of the hash. */
  lemma MatchIsIndexed(g: Geometry, hashOf: string -> nat, blocks: Blocks, npages: nat, depth: nat,
                       index: map<string, Loc>, fname: FileName, l: Loc)
    requires DirOk(g, hashOf, blocks, npages, depth, index)
    requires Live(blocks, l) && Matches(blocks[l.block], l.slot, fname)
    ensures fname.name in index && index[fname.name] == l
  {
    assert NameOf(blocks, l) == fname.name;
  }

  lemma AbsentIfUnmatched(g: Geometry, hashOf: string -> nat, blocks: Blocks, npages: nat, depth: nat,
                          index: map<string, Loc>, fname: FileName)
    requires DirOk(g, hashOf, blocks, npages, depth, index) && fname.hash == hashOf(fname.name)
    requires forall level: nat, b: nat :: level < depth && InBucket(g, level, fname.hash % DirBuckets(g, level), b) ==>
      NoMatchIn(blocks, b, fname)
    ensures fname.name !in index
  {
    if fname.name in index {
      var l := index[fname.name];
      assert Live(blocks, l) && NameOf(blocks, l) == fname.name;
      assert Placed(g, depth, DentryOf(blocks, l).hash, l.block);
      assert NoMatchIn(blocks, l.block, fname);
      assert Matches(blocks[l.block], l.slot, fname);
    }
  }

  /** The bucket of the hash at a level can take the name. */
  ghost predicate LevelHasRoom(g: Geometry, blocks: Blocks, level: nat, fname: FileName)
    requires Sane(g)
  {
    exists b: nat :: InBucket(g, level, fname.hash % DirBuckets(g, level), b) &&
      (b !in blocks || HasRoom(blocks[b].bitmap, Slots(|fname.name|), |blocks[b].bitmap|))
  }

  /** Where a search for room starts: chash and clevel remember the level for one hash. */
  function HintedLevel(chash: nat, clevel: nat, fname: FileName): nat {
    if chash == fname.hash then clevel else 0
  }

  /** Some level from `from` on and below the depth can take the name. */
  ghost predicate RoomBelow(g: Geometry, blocks: Blocks, from: nat, depth: nat, fname: FileName)
    requires Sane(g)
  {
    exists level: nat :: from <= level < depth && LevelHasRoom(g, blocks, level, fname)
  }

  /** Levels the directory does not use yet hold no entry, so they have room for any name. */
  lemma FreshLevelHasRoom(g: Geometry, hashOf: string -> nat, blocks: Blocks, npages: nat, depth: nat,
                          index: map<string, Loc>, level: nat, fname: FileName)
    requires DirOk(g, hashOf, blocks, npages, depth, index) && 0 < |fname.name| <= NAME_LEN
    ensures level >= depth ==> LevelHasRoom(g, blocks, level, fname)
  {
    if level >= depth {
      var idx := fname.hash % DirBuckets(g, level);
      var b := BucketStart(g, level, idx);
      assert InBucket(g, level, idx, b);
      if b in blocks {
        NoEntriesThere(g, hashOf, blocks, npages, depth, index, level, idx, b);
        HeadlessHasRoom(blocks[b], |fname.name|);
      }
    }
  }

  lemma NoEntriesThere(g: Geometry, hashOf: string -> nat, blocks: Blocks, npages: nat, depth: nat,
                       index: map<string, Loc>, level: nat, idx: nat, b: nat)
    requires DirOk(g, hashOf, blocks, npages, depth, index) && level >= depth && InBucket(g, level, idx, b) &&
      b in blocks
    ensures WellFormed(blocks[b]) && |blocks[b].bitmap| >= Slots(NAME_LEN) && forall h: nat :: !Head(blocks[b], h)
  {
    hide WellFormed, InBucket, Slots, NameAt;
    if h: nat :| Head(blocks[b], h) {
      var l := Loc(b, h);
      assert Live(blocks, l);
      var k: nat :| k < depth && InBucket(g, k, DentryOf(blocks, l).hash % DirBuckets(g, k), b);
      BucketsDisjoint(g, k, DentryOf(blocks, l).hash % DirBuckets(g, k), level, idx, b);
    }
  }

  lemma HeadlessHasRoom(a: Area, len: nat)
    requires WellFormed(a) && |a.bitmap| >= Slots(NAME_LEN) && len <= NAME_LEN && forall h: nat :: !Head(a, h)
    ensures HasRoom(a.bitmap, Slots(len), |a.bitmap|)
  {
    forall i: nat | i < |a.bitmap| ensures !a.bitmap[i] {
      assert forall h: nat :: InRun(a, h, i) ==> Head(a, h);
    }
    assert FreeRun(a.bitmap, 0, Slots(len));
  }

  class Directory {
    const g: Geometry
    const hashOf: string -> nat
    var blocks: Blocks
    var npages: nat      // dir_blocks
    var depth: nat       // i_current_depth
    var chash: nat
    var clevel: nat
    ghost var index: map<string, Loc>

    ghost predicate Valid()
      reads this
    {
      && DirOk(g, hashOf, blocks, npages, depth, index)
      && depth <= g.maxDepth && clevel <= depth
    }

    ghost function Contents(): map<string, Target>
      reads this
      requires IndexOk(blocks, index)
    {
      ContentsOf(blocks, index)
    }

    /** make_empty_dir: a fresh directory holds "." and ".." in the first two slots of block 0. */
    constructor (g: Geometry, hashOf: string -> nat, self: Target, parent: Target)
      requires Sane(g) && g.maxDepth > 0 && hashOf(".") == hashOf("..") == 0
      ensures Valid() && this.g == g && this.hashOf == hashOf && depth == 1
      ensures Contents() == map["." := self, ".." := parent]
    {
      this.g, this.hashOf := g, hashOf;
      blocks, index := map[], map[];
      npages, depth, chash, clevel := 0, 1, 0, 0;
      new;
      NewDirFacts(g, hashOf);
      GetNewBlock(0);
      ghost var zero := blocks[0];
      StoreEntry(FileName(".", 0), self.ino, self.ftype, Loc(0, 0), 1);
      SecondDotFits(zero, FileName(".", 0), self.ino, self.ftype);
      StoreEntry(FileName("..", 0), parent.ino, parent.ftype, Loc(0, 1), 1);
    }

    /** find_in_level, with its hint about where a new entry would fit. */
    method FindInLevel(level: nat, fname: FileName) returns (found: Option<Loc>)
      requires Valid() && level < depth && fname.name != ""
      modifies `chash, `clevel
      ensures Valid()
      ensures found.Some? ==> Live(blocks, found.value) && Matches(blocks[found.value.block], found.value.slot, fname)
      ensures found.Some? ==> chash == old(chash) && clevel == old(clevel)
      ensures found.None? ==> forall b: nat :: InBucket(g, level, fname.hash % DirBuckets(g, level), b) ==>
        NoMatchIn(blocks, b, fname)
      ensures found.None? && old(chash) != fname.hash && LevelHasRoom(g, blocks, level, fname) ==>
        chash == fname.hash && clevel == level
      ensures found.None? && !(old(chash) != fname.hash && LevelHasRoom(g, blocks, level, fname)) ==>
        chash == old(chash) && clevel == old(clevel)
    {
      hide EntriesOk, IndexOk, WellFormed, HasRoom, Slots, Matches, Pow2, LevelStart;
      SlotsFit(|fname.name|);
      var s := Slots(|fname.name|);
      var nbucket := DirBuckets(g, level);
      var nblock := BucketBlocks(g, level);
      var start := DirBlockIndex(g, level, fname.hash % nbucket);
      var bidx := start;
      var room := false;
      while bidx < start + nblock
        invariant start <= bidx <= start + nblock
        invariant chash == old(chash) && clevel == old(clevel)
        invariant forall b: nat :: start <= b < bidx ==> NoMatchIn(blocks, b, fname)
        invariant room <==>
          exists b: nat :: start <= b < bidx && (b !in blocks || HasRoom(blocks[b].bitmap, s, |blocks[b].bitmap|))
      {
        if bidx !in blocks {
          room := true;
        } else {
          ShapedArea(blocks[bidx]);
          var de, maxSlots := FindTarget(blocks[bidx], fname);
          if de.Some? {
            return Some(Loc(bidx, de.value));
          }
          if maxSlots >= s {
            room := true;
          }
        }
        bidx := bidx + 1;
      }
      if room && chash != fname.hash {
        chash, clevel := fname.hash, level;
      }
      found := None;
    }

    /** __f2fs_find_entry on a directory kept in blocks. */
    method Find(fname: FileName) returns (found: Option<Loc>)
      requires Valid() && fname.name != "" && fname.hash == hashOf(fname.name)
      modifies `chash, `clevel
      ensures Valid()
      ensures found.Some? <==> fname.name in index
      ensures found.Some? ==> found.value == index[fname.name]
      // the hint names the lowest level that can take the name
      ensures old(chash) != fname.hash && chash == fname.hash ==>
        LevelHasRoom(g, blocks, clevel, fname) && forall l: nat :: l < clevel ==> !LevelHasRoom(g, blocks, l, fname)
      ensures found.None? && npages > 0 && chash != fname.hash ==> forall l: nat :: l < depth ==>
        !LevelHasRoom(g, blocks, l, fname)
      // a hint for this hash is left alone, and no other is set
      ensures old(chash) == fname.hash || npages == 0 || chash != fname.hash ==>
        chash == old(chash) && clevel == old(clevel)
    {
      hide EntriesOk, IndexOk, BlocksOk, InBucket, LevelHasRoom, NoMatchIn;
      if npages == 0 {
        EmptyIndex(g, hashOf, blocks, depth, index);
        return None;
      }
      var level := 0;
      while level < depth
        invariant 0 <= level <= depth
        invariant Valid()
        invariant forall l: nat, b: nat :: l < level && InBucket(g, l, fname.hash % DirBuckets(g, l), b) ==>
          NoMatchIn(blocks, b, fname)
        invariant old(chash) != fname.hash && chash == fname.hash ==>
          LevelHasRoom(g, blocks, clevel, fname) && forall l: nat :: l < clevel ==> !LevelHasRoom(g, blocks, l, fname)
        invariant chash != fname.hash ==> forall l: nat :: l < level ==> !LevelHasRoom(g, blocks, l, fname)
        invariant old(chash) == fname.hash || chash != fname.hash ==> chash == old(chash) && clevel == old(clevel)
      {
        found := FindInLevel(level, fname);
        if found.Some? {
          MatchIsIndexed(g, hashOf, blocks, npages, depth, index, fname, found.value);
          return;
        }
        level := level + 1;
      }
      AbsentIfUnmatched(g, hashOf, blocks, npages, depth, index, fname);
      found := None;
    }

    /** f2fs_get_new_data_page with new_i_size. */
    method GetNewBlock(b: nat)
      requires Valid()
      modifies `blocks, `npages
      ensures Valid() && b in blocks
      ensures Contents() == old(Contents())
      ensures blocks == if b in old(blocks) then old(blocks) else old(blocks)[b := ZeroArea(g.perBlock)]
      ensures npages == Reached(old(npages), b)
    {
      hide EntriesOk, IndexOk, WellFormed;
      var blocks' := if b in blocks then blocks else blocks[b := ZeroArea(g.perBlock)];
      var npages' := if npages < b + 1 then b + 1 else npages;
      GrownOk(g, hashOf, blocks, npages, depth, index, blocks', npages');
      blocks, npages := blocks', npages';
    }

    /** The add_dentry label of f2fs_add_regular_entry. */
    method StoreEntry(fname: FileName, ino: nat, ftype: nat, l: Loc, depth': nat)
      requires Valid() && 0 < |fname.name| <= NAME_LEN && fname.hash == hashOf(fname.name) && fname.name !in index
      requires l.block in blocks && FreeRun(blocks[l.block].bitmap, l.slot, Slots(|fname.name|))
      requires depth <= depth' <= g.maxDepth && Placed(g, depth', fname.hash, l.block)
      modifies `blocks, `depth, `index
      ensures Valid()
      ensures Contents() == old(Contents())[fname.name := Target(ino, ftype)]
      ensures depth == depth' && index == old(index)[fname.name := l]
      ensures SLOT_LEN * l.slot + |fname.name| <= |old(blocks)[l.block].filename|
      ensures blocks == old(blocks)[l.block := WithEntry(old(blocks)[l.block], l.slot, fname, ino, ftype)]
    {
      hide EntriesOk, IndexOk, BlocksOk, WellFormed, FreeRun, Slots, ContentsOf, Live, Placed, WithEntry, EntryAdded;
      StoreFacts(g, blocks, npages, l.block, l.slot, fname);
      var area := UpdateDentry(blocks[l.block], l.slot, fname, ino, ftype);
      WithEntryAdds(blocks[l.block], l.slot, fname, ino, ftype);
      InsertedOk(g, hashOf, blocks, npages, depth, index, l, fname, ino, ftype, area, depth');
      blocks := blocks[l.block := area];
      index := index[fname.name := l];
      depth := depth';
    }

    /** Looks for room in the bucket of the name at one level and stores the entry if there is any. */
    method AddInLevel(fname: FileName, ino: nat, ftype: nat, level: nat, depth': nat) returns (added: bool)
      requires Valid() && 0 < |fname.name| <= NAME_LEN && fname.hash == hashOf(fname.name) && fname.name !in index
      requires level < depth' && depth <= depth' <= g.maxDepth
      modifies `blocks, `npages, `depth, `index
      ensures Valid()
      ensures added ==> Contents() == old(Contents())[fname.name := Target(ino, ftype)]
      ensures added ==> depth == depth' && fname.name in index && index == old(index)[fname.name := index[fname.name]]
      ensures added ==> FirstFit(g, old(blocks), level, fname, index[fname.name])
      ensures added ==> StoredAt(g, old(blocks), blocks, index[fname.name], fname, ino, ftype)
      ensures added ==> npages == Reached(old(npages), index[fname.name].block)
      // a level without room has all its blocks, so none is added to it
      ensures !added ==> !LevelHasRoom(g, old(blocks), level, fname)
      ensures !added ==> blocks == old(blocks) && npages == old(npages) && depth == old(depth) && index == old(index)
    {
      hide EntriesOk, IndexOk, BlocksOk, WellFormed, HasRoom, FreeRun, Slots, Pow2, LevelStart, ContentsOf, Live,
        ZeroArea, WithEntry;
      SlotsFit(|fname.name|);
      var slots := Slots(|fname.name|);
      var start := DirBlockIndex(g, level, fname.hash % DirBuckets(g, level));
      var nblock := BucketBlocks(g, level);
      var block := start;
      while block < start + nblock
        invariant start <= block <= start + nblock
        invariant Valid() && depth == old(depth) && index == old(index)
        invariant blocks == old(blocks) && npages == old(npages)
        invariant forall b: nat :: start <= b < block ==>
          b in old(blocks) && !HasRoom(old(blocks)[b].bitmap, slots, |old(blocks)[b].bitmap|)
      {
        BlockBelow(g, blocks, npages, block);
        GetNewBlock(block);
        var pos := RoomForFilename(blocks[block].bitmap, slots);
        FitFacts(g, old(blocks), blocks, npages, block, pos, fname);
        if pos < |blocks[block].bitmap| {
          assert InBucket(g, level, fname.hash % DirBuckets(g, level), block);
          StoreEntry(fname, ino, ftype, Loc(block, pos), depth');
          return true;
        }
        block := block + 1;
      }
      return false;
    }

    /** f2fs_add_regular_entry; false is -ENOSPC. */
    method AddRegularEntry(fname: FileName, ino: nat, ftype: nat) returns (ok: bool)
      requires Valid() && 0 < |fname.name| <= NAME_LEN && fname.hash == hashOf(fname.name)
      // the callers have looked the name up
      requires fname.name !in Contents()
      modifies `blocks, `npages, `depth, `chash, `index
      ensures Valid()
      // at the full depth even a level with room is not tried
      ensures ok <==> old(depth) < g.maxDepth
      ensures ok ==> Contents() == old(Contents())[fname.name := Target(ino, ftype)]
      ensures !ok ==> blocks == old(blocks) && npages == old(npages) && depth == old(depth) && index == old(index)
      // a hint for this name is used up, also on failure
      ensures chash == if old(chash) == fname.hash then 0 else old(chash)
      // a level is added exactly when none of the present ones, from the hinted one up, has room
      ensures ok ==>
        var room := RoomBelow(g, old(blocks), HintedLevel(old(chash), old(clevel), fname), old(depth), fname);
        depth == old(depth) + if room then 0 else 1
      // first fit, from the hinted level up
      ensures ok ==> fname.name in index && index == old(index)[fname.name := index[fname.name]]
      ensures ok ==>
        LowestFit(g, old(blocks), HintedLevel(old(chash), old(clevel), fname), fname, index[fname.name])
      ensures ok && old(chash) == fname.hash ==> index[fname.name].block >= LevelStart(g, old(clevel))
      ensures ok ==> StoredAt(g, old(blocks), blocks, index[fname.name], fname, ino, ftype)
      ensures ok ==> npages == Reached(old(npages), index[fname.name].block)
    {
      hide EntriesOk, BlocksOk, IndexOk, LevelHasRoom, FirstFit, StoredAt, ContentsOf, InBucket;
      var level, currentDepth := 0, depth;
      if chash == fname.hash {
        level := clevel;
        chash := 0;
      }
      ghost var start := level;
      while true
        invariant Valid() && depth == old(depth) && index == old(index) && Contents() == old(Contents())
        invariant start <= level <= depth == currentDepth <= g.maxDepth
        invariant chash == if old(chash) == fname.hash then 0 else old(chash)
        invariant blocks == old(blocks) && npages == old(npages)
        invariant forall k: nat :: start <= k < level ==> !LevelHasRoom(g, old(blocks), k, fname)
        decreases g.maxDepth - level
      {
        if currentDepth == g.maxDepth {
          return false;
        }
        FreshLevelHasRoom(g, hashOf, blocks, npages, depth, index, level, fname);
        // increase the depth, if required
        if level == currentDepth {
          currentDepth := currentDepth + 1;
        }
        var added := AddInLevel(fname, ino, ftype, level, currentDepth);
        if added {
          FitMeansRoom(g, old(blocks), level, fname, index[fname.name]);
          FitIsThere(g, old(blocks), start, level, fname, index[fname.name]);
          return true;
        }
        level := level + 1;
      }
    }

    /** f2fs_delete_entry; `punched` says whether freeing an empty block succeeds. */
    method Delete(l: Loc, punched: bool)
      requires Valid() && Live(blocks, l)
      modifies `blocks, `index
      ensures Valid()
      ensures Contents() == old(Contents()) - {old(NameOf(blocks, l))}
      // the entry's slots are freed, and the block too if nothing is left in it
      ensures
        var area := WithoutEntry(old(blocks)[l.block], l.slot);
        blocks == if punched && true !in area.bitmap then old(blocks) - {l.block} else old(blocks)[l.block := area]
    {
      hide EntriesOk, IndexOk, WellFormed, ContentsOf, Slots;
      ShapedArea(blocks[l.block]);
      RunMarked(blocks[l.block], l.slot);
      var area := ClearSlots(blocks[l.block], l.slot);
      WithoutEntryRemoves(blocks[l.block], l.slot);
      RemovedOk(g, hashOf, blocks, npages, depth, index, l, area);
      index := index - {NameOf(blocks, l)};
      blocks := blocks[l.block := area];
      if NextBit(area.bitmap, true, 0) == |area.bitmap| && punched {
        PunchedOk(g, hashOf, blocks, npages, depth, index, l.block);
        blocks := blocks - {l.block};
      }
    }
  }

  // ----- a new directory

  lemma NewDirFacts(g: Geometry, hashOf: string -> nat)
    requires Sane(g)
    ensures DirOk(g, hashOf, map[], 0, 1, map[]) && ContentsOf(map[], map[]) == map[]
    ensures Placed(g, 1, 0, 0)
    ensures Slots(1) == Slots(2) == 1 && g.perBlock >= 2
    ensures FreeRun(ZeroArea(g.perBlock).bitmap, 0, 1) && FreeRun(ZeroArea(g.perBlock).bitmap, 1, 1)
  {
    assert InBucket(g, 0, 0 % DirBuckets(g, 0), 0);
  }

  /** The entry in slot 0 leaves slot 1 free. */
  lemma SecondDotFits(a: Area, fname: FileName, ino: nat, ftype: nat)
    requires |fname.name| <= |a.filename| && Slots(|fname.name|) == 1 && FreeRun(a.bitmap, 1, 1)
    ensures FreeRun(WithEntry(a, 0, fname, ino, ftype).bitmap, 1, 1)
  {
  }

  // ----- where an entry goes

  /** The block as the insertion sees it: a hole reads as a zeroed block. */
  function AreaOf(g: Geometry, blocks: Blocks, b: nat): Area {
    if b in blocks then blocks[b] else ZeroArea(g.perBlock)
  }

  /** `l` is the first free run for the name in the first block with room of its bucket. */
  ghost predicate FirstFit(g: Geometry, blocks: Blocks, level: nat, fname: FileName, l: Loc)
    requires Sane(g)
  {
    var slots := Slots(|fname.name|);
    && InBucket(g, level, fname.hash % DirBuckets(g, level), l.block)
    && (forall b: nat :: InBucket(g, level, fname.hash % DirBuckets(g, level), b) && b < l.block ==>
        b in blocks && !HasRoom(blocks[b].bitmap, slots, |blocks[b].bitmap|))
    && FreeRun(AreaOf(g, blocks, l.block).bitmap, l.slot, slots)
    && (forall p: nat :: p < l.slot ==> !FreeRun(AreaOf(g, blocks, l.block).bitmap, p, slots))
  }

  lemma FitIsThere(g: Geometry, blocks: Blocks, from: nat, level: nat, fname: FileName, l: Loc)
    requires Sane(g) && from <= level && FirstFit(g, blocks, level, fname, l)
    ensures l.block >= LevelStart(g, from)
  {
    LevelsAscend(g, from, level);
  }

  /** First fit at the lowest level, from `from` on, whose bucket has room. */
  ghost predicate LowestFit(g: Geometry, blocks: Blocks, from: nat, fname: FileName, l: Loc)
    requires Sane(g)
  {
    exists level: nat :: from <= level && FirstFit(g, blocks, level, fname, l) &&
      forall k: nat :: from <= k < level ==> !LevelHasRoom(g, blocks, k, fname)
  }

  /** The block at `l`, made if it was missing, holds what it held and the new entry; no other block changes. */
  ghost predicate StoredAt(g: Geometry, blocks: Blocks, blocks': Blocks, l: Loc, fname: FileName, ino: nat, ftype: nat)
  {
    && SLOT_LEN * l.slot + |fname.name| <= |AreaOf(g, blocks, l.block).filename|
    && blocks' == blocks[l.block := WithEntry(AreaOf(g, blocks, l.block), l.slot, fname, ino, ftype)]
  }

  lemma FitMeansRoom(g: Geometry, blocks: Blocks, level: nat, fname: FileName, l: Loc)
    requires Sane(g) && FirstFit(g, blocks, level, fname, l)
    ensures LevelHasRoom(g, blocks, level, fname)
  {
    hide InBucket, Slots;
    assert l.block in blocks ==> HasRoom(blocks[l.block].bitmap, Slots(|fname.name|), |blocks[l.block].bitmap|);
  }

  /** What RoomForFilename found in a block says the same about the block before it was grown. */
  lemma FitFacts(g: Geometry, blocks0: Blocks, blocks: Blocks, npages: nat, b: nat, pos: nat, fname: FileName)
    requires Sane(g) && BlocksOk(g, blocks, npages) && Grown(g, blocks0, blocks) && b in blocks
    requires 0 < |fname.name| <= NAME_LEN
    requires pos < |blocks[b].bitmap| <==> HasRoom(blocks[b].bitmap, Slots(|fname.name|), |blocks[b].bitmap|)
    ensures AreaOf(g, blocks0, b) == blocks[b]
    ensures pos >= |blocks[b].bitmap| ==> b in blocks0
  {
    if b !in blocks0 {
      assert FreeRun(blocks[b].bitmap, 0, Slots(|fname.name|));
    }
  }

  lemma BlockBelow(g: Geometry, blocks: Blocks, npages: nat, b: nat)
    requires BlocksOk(g, blocks, npages)
    ensures b in blocks ==> b < npages
  {
  }

  lemma StoreFacts(g: Geometry, blocks: Blocks, npages: nat, b: nat, pos: nat, fname: FileName)
    requires BlocksOk(g, blocks, npages) && b in blocks && FreeRun(blocks[b].bitmap, pos, Slots(|fname.name|))
    ensures WellFormed(blocks[b]) && Shaped(blocks[b]) && pos + Slots(|fname.name|) <= |blocks[b].bitmap|
    ensures SLOT_LEN * pos + |fname.name| <= |blocks[b].filename|
  {
    hide Slots;
    SlotsFit(|fname.name|);
  }

  lemma EmptyIndex(g: Geometry, hashOf: string -> nat, blocks: Blocks, depth: nat, index: map<string, Loc>)
    requires DirOk(g, hashOf, blocks, 0, depth, index)
    ensures forall n :: n !in index
  {
    assert forall l: Loc :: !Live(blocks, l);
  }

  // ----- insertion

  /** `blocks'` only adds fresh blocks. */
  ghost predicate Grown(g: Geometry, blocks: Blocks, blocks': Blocks) {
    && (forall b :: b in blocks ==> b in blocks' && blocks'[b] == blocks[b])
    && (forall b :: b in blocks' && b !in blocks ==> blocks'[b] == ZeroArea(g.perBlock))
  }

  lemma GrownOk(g: Geometry, hashOf: string -> nat, blocks: Blocks, npages: nat, depth: nat, index: map<string, Loc>,
                blocks': Blocks, npages': nat)
    requires DirOk(g, hashOf, blocks, npages, depth, index) && Grown(g, blocks, blocks')
    requires npages <= npages' && forall b :: b in blocks' ==> b < npages'
    ensures DirOk(g, hashOf, blocks', npages', depth, index)
    ensures ContentsOf(blocks', index) == ContentsOf(blocks, index)
  {
    ZeroAreaEmpty(g.perBlock);
    hide Placed, WellFormed, Slots, NameAt;
    forall l: Loc ensures Live(blocks', l) <==> Live(blocks, l) {
    }
  }

  /** The entries after an insertion are the old ones, unchanged, and one at `l`. */
  ghost predicate OnlyWith(blocks: Blocks, blocks': Blocks, l: Loc) {
    && (forall k: Loc :: Live(blocks', k) <==> Live(blocks, k) || k == l)
    && (forall k: Loc :: Live(blocks, k) ==>
        k != l && Live(blocks', k) && NameOf(blocks', k) == NameOf(blocks, k) &&
          DentryOf(blocks', k) == DentryOf(blocks, k))
  }

  lemma InsertedOnly(blocks: Blocks, l: Loc, fname: FileName, ino: nat, ftype: nat, area: Area)
    requires l.block in blocks && EntryAdded(blocks[l.block], area, l.slot, fname, ino, ftype)
    ensures OnlyWith(blocks, blocks[l.block := area], l)
    ensures NameOf(blocks[l.block := area], l) == fname.name
    ensures DentryOf(blocks[l.block := area], l) == Dentry(fname.hash, |fname.name|, ino, ftype)
  {
    hide WellFormed, Slots, NameAt;
  }

  lemma PlacedDeeper(g: Geometry, depth: nat, depth': nat, hash: nat, b: nat)
    requires Sane(g) && Placed(g, depth, hash, b) && depth <= depth'
    ensures Placed(g, depth', hash, b)
  {
    hide InBucket;
    var level: nat :| level < depth && InBucket(g, level, hash % DirBuckets(g, level), b);
    assert level < depth';
  }

  lemma InsertedEntries(g: Geometry, hashOf: string -> nat, blocks: Blocks, blocks': Blocks, depth: nat, depth': nat,
                        index: map<string, Loc>, l: Loc, name: string)
    requires Sane(g) && EntriesOk(g, hashOf, blocks, depth, index) && IndexOk(blocks, index)
    requires OnlyWith(blocks, blocks', l) && NameOf(blocks', l) == name && name !in index
    requires DentryOf(blocks', l).hash == hashOf(name)
    requires depth <= depth' && Placed(g, depth', hashOf(name), l.block)
    ensures EntriesOk(g, hashOf, blocks', depth', index[name := l]) && IndexOk(blocks', index[name := l])
    ensures ContentsOf(blocks', index[name := l]) ==
      ContentsOf(blocks, index)[name := Target(DentryOf(blocks', l).ino, DentryOf(blocks', l).ftype)]
  {
    hide Live, NameOf, DentryOf, Placed;
    forall k: Loc | Live(blocks', k) && k != l ensures Placed(g, depth', DentryOf(blocks', k).hash, k.block) {
      PlacedDeeper(g, depth, depth', DentryOf(blocks, k).hash, k.block);
    }
    assert IndexOk(blocks', index[name := l]);
  }

  /** Storing a new name in a block of its hash. */
  lemma InsertedOk(g: Geometry, hashOf: string -> nat, blocks: Blocks, npages: nat, depth: nat, index: map<string, Loc>,
                   l: Loc, fname: FileName, ino: nat, ftype: nat, area: Area, depth': nat)
    requires DirOk(g, hashOf, blocks, npages, depth, index) && l.block in blocks
    requires EntryAdded(blocks[l.block], area, l.slot, fname, ino, ftype)
    requires fname.name !in index && fname.hash == hashOf(fname.name)
    requires depth <= depth' && Placed(g, depth', fname.hash, l.block)
    ensures DirOk(g, hashOf, blocks[l.block := area], npages, depth', index[fname.name := l])
    ensures ContentsOf(blocks[l.block := area], index[fname.name := l]) ==
      ContentsOf(blocks, index)[fname.name := Target(ino, ftype)]
  {
    hide WellFormed, EntriesOk, IndexOk, OnlyWith, Placed;
    InsertedOnly(blocks, l, fname, ino, ftype, area);
    InsertedEntries(g, hashOf, blocks, blocks[l.block := area], depth, depth', index, l, fname.name);
  }

  // ----- removal

  /** The entries left after a removal, and what they say, are the old ones. */
  ghost predicate OnlyWithout(blocks: Blocks, blocks': Blocks, l: Loc) {
    && (forall k: Loc :: Live(blocks', k) <==> Live(blocks, k) && k != l)
    && (forall k: Loc :: Live(blocks', k) ==>
        NameOf(blocks', k) == NameOf(blocks, k) && DentryOf(blocks', k) == DentryOf(blocks, k))
  }

  lemma RemovedOnly(blocks: Blocks, l: Loc, area: Area)
    requires Live(blocks, l) && EntryRemoved(blocks[l.block], area, l.slot)
    ensures OnlyWithout(blocks, blocks[l.block := area], l)
  {
    hide WellFormed, Slots, NameAt;
    SameNames(blocks[l.block], area);
  }

  lemma RemovedEntries(g: Geometry, hashOf: string -> nat, blocks: Blocks, blocks': Blocks, depth: nat,
                       index: map<string, Loc>, l: Loc)
    requires Sane(g) && EntriesOk(g, hashOf, blocks, depth, index) && IndexOk(blocks, index)
    requires Live(blocks, l) && OnlyWithout(blocks, blocks', l)
    ensures
      var index' := index - {NameOf(blocks, l)};
      && EntriesOk(g, hashOf, blocks', depth, index') && IndexOk(blocks', index')
      && ContentsOf(blocks', index') == ContentsOf(blocks, index) - {NameOf(blocks, l)}
  {
    hide Live, NameOf, DentryOf, Placed;
    var index' := index - {NameOf(blocks, l)};
    assert IndexOk(blocks', index');
    assert ContentsOf(blocks', index') == ContentsOf(blocks, index) - {NameOf(blocks, l)};
  }

  lemma RemovedOk(g: Geometry, hashOf: string -> nat, blocks: Blocks, npages: nat, depth: nat, index: map<string, Loc>,
                  l: Loc, area: Area)
    requires DirOk(g, hashOf, blocks, npages, depth, index) && Live(blocks, l)
    requires EntryRemoved(blocks[l.block], area, l.slot)
    ensures
      var index' := index - {NameOf(blocks, l)};
      && DirOk(g, hashOf, blocks[l.block := area], npages, depth, index')
      && ContentsOf(blocks[l.block := area], index') == ContentsOf(blocks, index) - {NameOf(blocks, l)}
  {
    hide WellFormed, EntriesOk, IndexOk, OnlyWithout;
    RemovedOnly(blocks, l, area);
    RemovedEntries(g, hashOf, blocks, blocks[l.block := area], depth, index, l);
  }

  lemma SameNames(a: Area, a': Area)
    requires a'.dentry == a.dentry && a'.filename == a.filename
    ensures forall h: nat :: h < |a.dentry| ==> NameAt(a', h) == NameAt(a, h)
  {
  }

  /** Punching a block without entries. */
  lemma PunchedOk(g: Geometry, hashOf: string -> nat, blocks: Blocks, npages: nat, depth: nat,
                  index: map<string, Loc>, b: nat)
    requires DirOk(g, hashOf, blocks, npages, depth, index) && b in blocks
    requires forall h: nat :: !Head(blocks[b], h)
    ensures DirOk(g, hashOf, blocks - {b}, npages, depth, index)
    ensures ContentsOf(blocks - {b}, index) == ContentsOf(blocks, index)
  {
    hide WellFormed, Slots, NameAt, Placed;
    forall l: Loc ensures Live(blocks - {b}, l) <==> Live(blocks, l) {
    }
  }

  lemma ShapedArea(a: Area)
    requires WellFormed(a)
    ensures Shaped(a)
  {
  }
}
