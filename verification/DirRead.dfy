/**
 Reading a directory: readdir lists the entries in slot order and can be resumed at the position
 where the caller's buffer was full.
 */
module DirRead {
  import opened Prelude
  import opened DentryArea
  import opened DirGeometry
  import opened Directory
  import opened Arith
  import FileType

  /** What dir_emit passes to the caller. */
  datatype Item = Item(name: string, ino: nat, dtype: nat)

  function ItemAt(a: Area, h: nat): Item
    requires h < |a.dentry|
  {
    Item(NameAt(a, h), a.dentry[h].ino, FileType.DeType(a.dentry[h].ftype))
  }

  /** The entries of an area that start at slot `from` or later. */
  function ItemsFrom(a: Area, from: nat): seq<Item>
    decreases |a.bitmap| - from
  {
    if from >= |a.bitmap| then []
    else if Head(a, from) then [ItemAt(a, from)] + ItemsFrom(a, from + 1)
    else ItemsFrom(a, from + 1)
  }

  lemma {:induction false} SkipHeadless(a: Area, lo: nat, hi: nat)
    requires lo <= hi && forall h: nat :: lo <= h < hi ==> !Head(a, h)
    ensures ItemsFrom(a, lo) == ItemsFrom(a, hi)
    decreases hi - lo
  {
    if lo < hi {
      SkipHeadless(a, lo + 1, hi);
    }
  }

  /** Past an entry's slots the next entries follow. */
  lemma NextItem(a: Area, h: nat)
    requires WellFormed(a) && Head(a, h)
    ensures h < RunEnd(a, h) <= |a.bitmap|
    ensures ItemsFrom(a, h) == [ItemAt(a, h)] + ItemsFrom(a, RunEnd(a, h))
  {
    hide Slots;
    SlotsFit(a.dentry[h].nameLen);
    forall g: nat | h < g < RunEnd(a, h) ensures !Head(a, g) {
      assert InRun(a, h, g);
    }
    SkipHeadless(a, h + 1, RunEnd(a, h));
  }

  lemma NoneLeft(a: Area)
    ensures ItemsFrom(a, |a.bitmap|) == []
  {
  }

  /** f2fs_fill_dentries: `budget` items fit in the caller's buffer; `full` is its return value 1. */
  method FillDentries(a: Area, startPos: nat, from: nat, budget: nat) returns (out: seq<Item>, pos: nat, full: bool)
    requires WellFormed(a) && from < |a.bitmap|
    ensures |out| <= budget
    ensures !full ==> out == ItemsFrom(a, from)
    ensures full ==>
      |out| == budget && startPos + from <= pos < startPos + |a.bitmap| &&
        out + ItemsFrom(a, pos - startPos) == ItemsFrom(a, from)
    ensures full ==> ItemsFrom(a, pos - startPos) != []
  {
    hide Slots, ItemsFrom, ItemAt, WellFormed;
    ShapedArea(a);
    NoneLeft(a);
    var bitPos := from;
    out, pos, full := [], startPos + from, false;
    while bitPos < |a.bitmap|
      invariant from <= bitPos <= |a.bitmap| && |out| <= budget
      invariant startPos + from <= pos <= startPos + bitPos
      invariant out + ItemsFrom(a, bitPos) == ItemsFrom(a, from)
      invariant ItemsFrom(a, pos - startPos) == ItemsFrom(a, bitPos)
    {
      ghost var prev := bitPos;
      bitPos := NextBit(a.bitmap, true, bitPos);
      SkipHeadless(a, prev, bitPos);
      if bitPos >= |a.bitmap| {
        break;
      }
      if a.dentry[bitPos].nameLen == 0 {
        SkipHeadless(a, bitPos, bitPos + 1);
        bitPos := bitPos + 1;
        pos := startPos + bitPos;
        continue;
      }
      var h := bitPos;
      NextItem(a, h);
      bitPos := RunEnd(a, h);
      if |out| == budget {
        full := true;
        return;
      }
      out := out + [ItemAt(a, h)];
      pos := startPos + bitPos;
    }
  }

  // ----- all blocks

  function BlockItems(blocks: Blocks, n: nat, from: nat): seq<Item> {
    if n in blocks then ItemsFrom(blocks[n], from) else []
  }

  /** The entries of blocks n .. npages; blocks that are holes have none. */
  function Rest(blocks: Blocks, n: nat, npages: nat): seq<Item>
    decreases npages - n
  {
    if n >= npages then [] else BlockItems(blocks, n, 0) + Rest(blocks, n + 1, npages)
  }

  /** What is still to be listed from slot k of block n on. */
  function Remaining(blocks: Blocks, npages: nat, n: nat, k: nat): seq<Item> {
    if n >= npages then [] else BlockItems(blocks, n, k) + Rest(blocks, n + 1, npages)
  }

  /** What is still to be listed at file position `pos`. */
  function Listing(blocks: Blocks, npages: nat, perBlock: nat, pos: nat): seq<Item>
    requires perBlock > 0
  {
    Remaining(blocks, npages, pos / perBlock, pos % perBlock)
  }

  /** Position of the first slot of block n. */
  function BlockPos(n: nat, perBlock: nat): nat {
    n * perBlock
  }

  lemma ListingAt(blocks: Blocks, npages: nat, perBlock: nat, n: nat, k: nat)
    requires k < perBlock
    ensures Listing(blocks, npages, perBlock, BlockPos(n, perBlock) + k) == Remaining(blocks, npages, n, k)
  {
    assert n * perBlock == perBlock * n;
    DivUnique(n * perBlock + k, perBlock, n, k);
  }

  lemma PosSplit(perBlock: nat, pos: nat)
    requires perBlock > 0
    ensures pos == BlockPos(pos / perBlock, perBlock) + pos % perBlock
  {
    assert pos / perBlock * perBlock == perBlock * (pos / perBlock);
  }

  ghost predicate AreasOk(blocks: Blocks, perBlock: nat) {
    perBlock > 0 && forall b :: b in blocks ==> WellFormed(blocks[b]) && |blocks[b].bitmap| == perBlock
  }

  /** f2fs_readdir from position `pos`, with room for `budget` items. */
  method Readdir(blocks: Blocks, npages: nat, perBlock: nat, pos: nat, budget: nat) returns (out: seq<Item>, pos': nat)
    requires AreasOk(blocks, perBlock)
    ensures |out| <= budget
    // nothing is skipped and nothing is repeated, wherever the buffer was full
    ensures out + Listing(blocks, npages, perBlock, pos') == Listing(blocks, npages, perBlock, pos)
    // and the call only stops early when the buffer was full
    ensures |out| < budget ==> Listing(blocks, npages, perBlock, pos') == []
  {
    hide WellFormed, ItemsFrom, Rest, Remaining, Listing, BlockPos;
    var n: nat, k: nat := pos / perBlock, pos % perBlock;
    PosSplit(perBlock, pos);
    ListingAt(blocks, npages, perBlock, n, k);
    pos', out := pos, [];
    while n < npages
      invariant |out| <= budget && k < perBlock
      invariant out + Remaining(blocks, npages, n, k) == Listing(blocks, npages, perBlock, pos)
      invariant pos' == BlockPos(n, perBlock) + k
      decreases npages - n
    {
      NextBlock(blocks, npages, n, k);
      if n in blocks {
        var items, p, full := FillDentries(blocks[n], BlockPos(n, perBlock), k, budget - |out|);
        if full {
          ghost var k' := p - BlockPos(n, perBlock);
          FullHere(blocks, npages, n, k, k', items);
          ListingAt(blocks, npages, perBlock, n, k');
          return out + items, p;
        }
        out := out + items;
      }
      n, k := n + 1, 0;
      pos' := BlockPos(n, perBlock);
    }
    ListingAt(blocks, npages, perBlock, n, k);
    PastEnd(blocks, npages, n, k);
  }

  lemma PastEnd(blocks: Blocks, npages: nat, n: nat, k: nat)
    requires n >= npages
    ensures Remaining(blocks, npages, n, k) == []
  {
  }

  lemma NextBlock(blocks: Blocks, npages: nat, n: nat, k: nat)
    requires n < npages
    ensures Remaining(blocks, npages, n, k) == BlockItems(blocks, n, k) + Remaining(blocks, npages, n + 1, 0)
  {
  }

  lemma FullHere(blocks: Blocks, npages: nat, n: nat, k: nat, k': nat, items: seq<Item>)
    requires n < npages && n in blocks && items + ItemsFrom(blocks[n], k') == ItemsFrom(blocks[n], k)
    ensures items + Remaining(blocks, npages, n, k') == Remaining(blocks, npages, n, k)
  {
  }

  /** Any series of calls, each resuming where the one before stopped. */
  method ReaddirSeries(blocks: Blocks, npages: nat, perBlock: nat, budgets: seq<nat>) returns (out: seq<Item>, pos: nat)
    requires AreasOk(blocks, perBlock)
    ensures out + Listing(blocks, npages, perBlock, pos) == Listing(blocks, npages, perBlock, 0)
  {
    hide Listing;
    out, pos := [], 0;
    for i := 0 to |budgets|
      invariant perBlock > 0
      invariant out + Listing(blocks, npages, perBlock, pos) == Listing(blocks, npages, perBlock, 0)
    {
      var more, pos' := Readdir(blocks, npages, perBlock, pos, budgets[i]);
      out, pos := out + more, pos';
    }
  }

  // ----- the listing is every entry, once, in slot order

  function HeadsFrom(a: Area, from: nat): (hs: seq<nat>)
    ensures forall i :: 0 <= i < |hs| ==> from <= hs[i] && Head(a, hs[i])
    ensures forall i, j :: 0 <= i < j < |hs| ==> hs[i] < hs[j]
    ensures forall h: nat :: from <= h && Head(a, h) ==> h in hs
    decreases |a.bitmap| - from
  {
    if from >= |a.bitmap| then []
    else if Head(a, from) then [from] + HeadsFrom(a, from + 1)
    else HeadsFrom(a, from + 1)
  }

  predicate Before(l: Loc, m: Loc) {
    l.block < m.block || (l.block == m.block && l.slot < m.slot)
  }

  /** `ls` is every entry of blocks n .. npages, once, in the order of blocks and slots. */
  ghost predicate Lists(blocks: Blocks, ls: seq<Loc>, n: nat, npages: nat) {
    && (forall i :: 0 <= i < |ls| ==> Live(blocks, ls[i]) && n <= ls[i].block < npages)
    && (forall i, j :: 0 <= i < j < |ls| ==> Before(ls[i], ls[j]))
    && (forall l: Loc :: Live(blocks, l) && n <= l.block < npages ==> l in ls)
  }

  /** The entries of one block. */
  function LocsIn(blocks: Blocks, n: nat): seq<Loc> {
    var here := if n in blocks then HeadsFrom(blocks[n], 0) else [];
    seq(|here|, i requires 0 <= i < |here| => Loc(n, here[i]))
  }

  lemma LocsInAre(blocks: Blocks, n: nat)
    ensures Lists(blocks, LocsIn(blocks, n), n, n + 1)
  {
    hide Head, HeadsFrom;
    var ls := LocsIn(blocks, n);
    forall l: Loc | Live(blocks, l) && l.block == n ensures l in ls {
      var here := HeadsFrom(blocks[n], 0);
      var i :| 0 <= i < |here| && here[i] == l.slot;
      assert ls[i] == l;
    }
  }

  function LocsFrom(blocks: Blocks, n: nat, npages: nat): seq<Loc>
    decreases npages - n
  {
    if n >= npages then [] else LocsIn(blocks, n) + LocsFrom(blocks, n + 1, npages)
  }

  lemma ListsJoin(blocks: Blocks, mine: seq<Loc>, later: seq<Loc>, n: nat, npages: nat)
    requires n < npages && Lists(blocks, mine, n, n + 1) && Lists(blocks, later, n + 1, npages)
    ensures Lists(blocks, mine + later, n, npages)
  {
    var ls := mine + later;
    forall i | 0 <= i < |ls| ensures Live(blocks, ls[i]) && n <= ls[i].block < npages {
      assert ls[i] == if i < |mine| then mine[i] else later[i - |mine|];
    }
  }

  /** Every entry below npages, once, in the order of blocks and slots. */
  lemma {:induction false} LocsComplete(blocks: Blocks, n: nat, npages: nat)
    ensures Lists(blocks, LocsFrom(blocks, n, npages), n, npages)
    decreases npages - n
  {
    if n < npages {
      LocsComplete(blocks, n + 1, npages);
      LocsInAre(blocks, n);
      ListsJoin(blocks, LocsIn(blocks, n), LocsFrom(blocks, n + 1, npages), n, npages);
    }
  }

  /** What is listed for one entry. */
  ghost function ItemOf(blocks: Blocks, l: Loc): Item
    requires Live(blocks, l)
  {
    ItemAt(blocks[l.block], l.slot)
  }

  lemma {:induction false} ItemsAreHeads(a: Area, from: nat)
    ensures |ItemsFrom(a, from)| == |HeadsFrom(a, from)|
    ensures forall i :: 0 <= i < |HeadsFrom(a, from)| ==> ItemsFrom(a, from)[i] == ItemAt(a, HeadsFrom(a, from)[i])
    decreases |a.bitmap| - from
  {
    if from < |a.bitmap| {
      ItemsAreHeads(a, from + 1);
    }
  }

  /** The full listing names the entries one by one. */
  lemma {:induction false} ListingIsComplete(blocks: Blocks, n: nat, npages: nat)
    ensures
      var ls := LocsFrom(blocks, n, npages);
      && |Rest(blocks, n, npages)| == |ls|
      && forall i :: 0 <= i < |ls| ==> Live(blocks, ls[i]) && Rest(blocks, n, npages)[i] == ItemOf(blocks, ls[i])
    decreases npages - n
  {
    LocsComplete(blocks, n, npages);
    if n < npages {
      ListingIsComplete(blocks, n + 1, npages);
      if n in blocks {
        ItemsAreHeads(blocks[n], 0);
      }
    }
  }

  /** Reading from the start lists exactly that. */
  lemma ListingFromStart(blocks: Blocks, npages: nat, perBlock: nat)
    requires perBlock > 0
    ensures Listing(blocks, npages, perBlock, 0) == Rest(blocks, 0, npages)
  {
    ListingAt(blocks, npages, perBlock, 0, 0);
    assert BlockPos(0, perBlock) + 0 == 0;
  }

  // ----- the listing is the directory's map

  /** One item is right about the map: its name is there, with this inode and a type of this kind. */
  ghost predicate Tells(item: Item, m: map<string, Target>) {
    item.name in m && item.ino == m[item.name].ino && FileType.IsKind(m[item.name].ftype, item.dtype)
  }

  function Names(items: seq<Item>): seq<string> {
    seq(|items|, i requires 0 <= i < |items| => items[i].name)
  }

  lemma {:induction false} DistinctCount<T>(s: seq<T>, names: set<T>)
    requires NoDup(s) && forall x :: x in names <==> x in s
    ensures |names| == |s|
  {
    if s == [] {
      assert names == {};
    } else {
      var last := s[|s| - 1];
      forall x ensures x in names - {last} <==> x in s[..|s| - 1] {
        if x in names - {last} {
          var i :| 0 <= i < |s| && s[i] == x;
          assert s[..|s| - 1][i] == x;
        }
      }
      DistinctCount(s[..|s| - 1], names - {last});
    }
  }

  lemma ItemTells(g: Geometry, hashOf: string -> nat, blocks: Blocks, npages: nat, depth: nat,
                  index: map<string, Loc>, l: Loc)
    requires DirOk(g, hashOf, blocks, npages, depth, index) && Live(blocks, l)
    ensures ItemOf(blocks, l).name == NameOf(blocks, l) && index[NameOf(blocks, l)] == l
    ensures Tells(ItemOf(blocks, l), ContentsOf(blocks, index))
  {
    FileType.DeTypeIsKind(DentryOf(blocks, l).ftype);
  }

  lemma BlocksBelow(g: Geometry, hashOf: string -> nat, blocks: Blocks, npages: nat, depth: nat,
                    index: map<string, Loc>)
    requires DirOk(g, hashOf, blocks, npages, depth, index)
    ensures g.perBlock > 0
    ensures forall l: Loc :: Live(blocks, l) ==> l.block < npages
  {
  }

  /**
   Listing a directory from position 0 tells its map: as many items as names, each item right about its
   name's inode and type, and every name once.
   */
  lemma ListingIsTheMap(g: Geometry, hashOf: string -> nat, blocks: Blocks, npages: nat, depth: nat,
                        index: map<string, Loc>)
    requires DirOk(g, hashOf, blocks, npages, depth, index)
    ensures
      var m := ContentsOf(blocks, index);
      g.perBlock > 0 &&
      var out := Listing(blocks, npages, g.perBlock, 0);
      && |out| == |m|
      && (forall i :: 0 <= i < |out| ==> Tells(out[i], m))
      && (forall i, j :: 0 <= i < j < |out| ==> out[i].name != out[j].name)
      && (forall n :: n in m ==> n in Names(out))
  {
    hide ItemOf, ItemAt, Rest, LocsFrom, Listing, Tells, EntriesOk, BlocksOk;
    var m := ContentsOf(blocks, index);
    BlocksBelow(g, hashOf, blocks, npages, depth, index);
    ListingFromStart(blocks, npages, g.perBlock);
    ListingIsComplete(blocks, 0, npages);
    LocsComplete(blocks, 0, npages);
    var out, ls := Rest(blocks, 0, npages), LocsFrom(blocks, 0, npages);
    forall i | 0 <= i < |out|
      ensures Tells(out[i], m) && out[i].name in m && index[out[i].name] == ls[i]
    {
      ItemTells(g, hashOf, blocks, npages, depth, index, ls[i]);
      TellsName(out[i], m);
    }
    forall i, j | 0 <= i < j < |out| ensures out[i].name != out[j].name {
      assert Before(ls[i], ls[j]);
    }
    forall n ensures n in m <==> n in Names(out) {
      if n in m {
        assert Live(blocks, index[n]) && index[n] in ls;
        var i :| 0 <= i < |ls| && ls[i] == index[n];
        assert Names(out)[i] == n;
      }
    }
    DistinctCount(Names(out), m.Keys);
    assert |m| == |m.Keys|;
  }

  lemma TellsName(item: Item, m: map<string, Target>)
    requires Tells(item, m)
    ensures item.name in m
  {
  }
}

/** File types as a dentry stores them, and as the rest of the kernel names them. */
module FileType {
  /** F2FS_FT_MAX. */
  const FT_MAX: nat := 8

  /** f2fs_filetype_table: unknown, regular, directory, character, block, fifo, socket, link. */
  const TABLE: seq<nat> := [0, 8, 4, 2, 6, 1, 12, 10]

  // the types a dentry stores
  const FT_UNKNOWN: nat := 0
  const FT_REG_FILE: nat := 1
  const FT_DIR: nat := 2
  const FT_CHRDEV: nat := 3
  const FT_BLKDEV: nat := 4
  const FT_FIFO: nat := 5
  const FT_SOCK: nat := 6
  const FT_SYMLINK: nat := 7

  // the types readdir reports; DT_x is S_IFx >> S_SHIFT
  const DT_UNKNOWN: nat := 0
  const DT_FIFO: nat := 1
  const DT_CHR: nat := 2
  const DT_DIR: nat := 4
  const DT_BLK: nat := 6
  const DT_REG: nat := 8
  const DT_LNK: nat := 10
  const DT_SOCK: nat := 12

  /** A stored type and a reported type name the same kind of file; a type out of range is unknown. */
  predicate IsKind(ftype: nat, dtype: nat) {
    || (ftype == FT_REG_FILE && dtype == DT_REG)
    || (ftype == FT_DIR && dtype == DT_DIR)
    || (ftype == FT_CHRDEV && dtype == DT_CHR)
    || (ftype == FT_BLKDEV && dtype == DT_BLK)
    || (ftype == FT_FIFO && dtype == DT_FIFO)
    || (ftype == FT_SOCK && dtype == DT_SOCK)
    || (ftype == FT_SYMLINK && dtype == DT_LNK)
    || ((ftype == FT_UNKNOWN || ftype > FT_SYMLINK) && dtype == DT_UNKNOWN)
  }

  /** f2fs_get_de_type. */
  function DeType(ftype: nat): nat {
    if ftype < FT_MAX then TABLE[ftype] else 0
  }

  /** f2fs_type_by_mode, indexed by (mode & S_IFMT) >> S_SHIFT. */
  function TypeByMode(kind: nat): nat {
    match kind
    case 8 => 1
    case 4 => 2
    case 2 => 3
    case 6 => 4
    case 1 => 5
    case 12 => 6
    case 10 => 7
    case _ => 0
  }

  /** Each stored type is reported as its kind, and as no other. */
  lemma DeTypeIsKind(ftype: nat)
    ensures forall dtype: nat :: IsKind(ftype, dtype) <==> dtype == DeType(ftype)
  {
    assert ftype < FT_MAX ==> ftype in {0, 1, 2, 3, 4, 5, 6, 7};
  }

  /** A file is stored with the type of its mode; kinds the table does not know become unknown. */
  lemma TypeByModeIsKind(kind: nat)
    ensures TypeByMode(kind) < FT_MAX
    ensures kind in {DT_FIFO, DT_CHR, DT_DIR, DT_BLK, DT_REG, DT_LNK, DT_SOCK} ==> IsKind(TypeByMode(kind), kind)
    ensures kind !in {DT_FIFO, DT_CHR, DT_DIR, DT_BLK, DT_REG, DT_LNK, DT_SOCK} ==> TypeByMode(kind) == FT_UNKNOWN
  {
  }

  /** Reading a stored type and storing it again gives the same type, for every type the table knows. */
  lemma TypeRoundTrip(ftype: nat)
    ensures TypeByMode(DeType(ftype)) == if ftype < FT_MAX then ftype else 0
  {
    assert ftype < FT_MAX ==> ftype in {0, 1, 2, 3, 4, 5, 6, 7};
  }
}
