/**
 Layout of one checkpoint pack and the orphan inode list it carries.

 `CheckpointManager` holds the fields of the superblock info that the layout depends on.
 Orphan slots are reserved before use (acquire), then either filled (add) or given back
 (release); the reservation limit is what keeps every pack inside one segment.
 */
module CheckpointPack {
  import opened Prelude
  import opened Arith
  import Protocol = CheckpointProtocol

  const F2FS_CP_PACKS := 2
  const NR_CURSEG_DATA_TYPE := 3
  const NR_CURSEG_NODE_TYPE := 3
  const NR_CURSEG_PERSIST_TYPE := NR_CURSEG_DATA_TYPE + NR_CURSEG_NODE_TYPE

  /** struct f2fs_orphan_block; `ino` has F2FS_ORPHANS_PER_BLOCK slots. */
  datatype OrphanBlock = OrphanBlock(ino: seq<nat>, blkAddr: nat, blkCount: nat, entryCount: nat)

  /** The fields of struct f2fs_checkpoint that describe the pack. */
  datatype Ckpt = Ckpt(version: nat, startSum: nat, total: nat, umount: bool, orphanPresent: bool, natBits: bool)

  datatype PackBlock =
    | CkptBlock(ckpt: Ckpt)
    | PayloadBlock(index: nat)
    | Orphans(block: OrphanBlock)
    | DataSummary(index: nat)
    | NodeSummary(index: nat)
    | NatBits(index: nat)

  type Pack = map<nat, PackBlock>

  datatype Result<T> = Ok(value: T) | Err

  /** GET_ORPHAN_BLOCKS stays within the limit the list was held to. */
  lemma {:induction false} OrphanBlocksBound(n: nat, perBlock: nat, limit: nat)
    requires perBlock > 0 && n <= limit * perBlock
    ensures CeilDiv(n, perBlock) <= limit
  {
    var q, r := n / perBlock, n % perBlock;
    CeilDivIs(n, perBlock, q, r);
    MulStep(perBlock, limit, q);
  }

  // ----- orphan blocks

  /** The inode numbers one orphan block names. */
  function Entries(block: OrphanBlock): seq<nat> {
    block.ino[..if block.entryCount <= |block.ino| then block.entryCount else |block.ino|]
  }

  function Decode(blocks: seq<OrphanBlock>): seq<nat> {
    if blocks == [] then [] else Decode(blocks[..|blocks| - 1]) + Entries(blocks[|blocks| - 1])
  }

  /** `pack` with `blocks` placed from offset `start` on. */
  function PlaceOrphans(pack: Pack, start: nat, blocks: seq<OrphanBlock>): Pack {
    if blocks == [] then pack
    else PlaceOrphans(pack, start, blocks[..|blocks| - 1])[start + |blocks| - 1 := Orphans(blocks[|blocks| - 1])]
  }

  /** `r` is `pack` with offsets lo..hi written, none of them with a checkpoint block. */
  ghost predicate Extends(pack: Pack, r: Pack, lo: nat, hi: nat) {
    && (forall o :: o in r <==> o in pack || lo <= o < hi)
    && (forall o :: o in pack && !(lo <= o < hi) ==> o in r && r[o] == pack[o])
    && (forall o :: lo <= o < hi ==> o in r && !r[o].CkptBlock?)
  }

  ghost predicate PlacedAt(pack: Pack, start: nat, blocks: seq<OrphanBlock>) {
    forall o :: start <= o < start + |blocks| ==> o in pack && pack[o] == Orphans(blocks[o - start])
  }

  lemma PlacedExactly(pack: Pack, start: nat, blocks: seq<OrphanBlock>)
    ensures PlacedAt(PlaceOrphans(pack, start, blocks), start, blocks)
    ensures Extends(pack, PlaceOrphans(pack, start, blocks), start, start + |blocks|)
  {
  }

  lemma NoBlocks(pack: Pack, start: nat, count: nat, perBlock: nat)
    ensures Decode([]) == [] && PlaceOrphans(pack, start, []) == pack && Labelled([], count, perBlock)
  {
  }

  lemma AppendLabelled(blocks: seq<OrphanBlock>, block: OrphanBlock, count: nat, perBlock: nat)
    requires Labelled(blocks, count, perBlock)
    requires block.blkAddr == |blocks| + 1 && block.blkCount == count && 0 < block.entryCount <= |block.ino| == perBlock
    ensures Labelled(blocks + [block], count, perBlock)
  {
  }

  lemma AppendBlock(pack: Pack, start: nat, blocks: seq<OrphanBlock>, block: OrphanBlock)
    ensures Decode(blocks + [block]) == Decode(blocks) + Entries(block)
    ensures PlaceOrphans(pack, start, blocks + [block]) ==
      PlaceOrphans(pack, start, blocks)[start + |blocks| := Orphans(block)]
  {
    assert (blocks + [block])[..|blocks|] == blocks;
  }

  /** Blocks number themselves from 1, record the total and hold at least one entry. */
  ghost predicate Labelled(blocks: seq<OrphanBlock>, count: nat, perBlock: nat) {
    forall i :: 0 <= i < |blocks| ==>
      && blocks[i].blkAddr == i + 1
      && blocks[i].blkCount == count
      && 0 < blocks[i].entryCount <= |blocks[i].ino| == perBlock
  }

  /** write_orphan_inodes: fills one block at a time and moves to the next when it is full. */
  method WriteOrphanInodes(pack: Pack, start: nat, list: seq<nat>, orphanBlocks: nat, perBlock: nat)
    returns (r: Pack, ghost blocks: seq<OrphanBlock>)
    requires perBlock > 0
    ensures r == PlaceOrphans(pack, start, blocks)
    ensures Decode(blocks) == list
    ensures |blocks| == CeilDiv(|list|, perBlock)
    ensures OrphansFrom(r, start, CeilDiv(|list|, perBlock)) == Ok(list)
    ensures Extends(pack, r, start, start + CeilDiv(|list|, perBlock))
    ensures Labelled(blocks, orphanBlocks, perBlock)
  {
    hide Decode, PlaceOrphans, Labelled, CeilDiv, OrphansFrom, Extends, PlacedAt;
    r, blocks := pack, [];
    NoBlocks(pack, start, orphanBlocks, perBlock);
    var startBlk, index, nentries := start, 1, 0;
    var page := seq(perBlock, _ => 0);
    for k := 0 to |list|
      invariant |page| == perBlock && 0 <= nentries < perBlock
      invariant index == |blocks| + 1 && startBlk == start + |blocks|
      invariant r == PlaceOrphans(pack, start, blocks)
      invariant Decode(blocks) + page[..nentries] == list[..k]
      invariant k == perBlock * |blocks| + nentries
      invariant Labelled(blocks, orphanBlocks, perBlock)
    {
      if nentries == 0 {
        page := seq(perBlock, _ => 0);
      }
      page := page[nentries := list[k]];
      nentries := nentries + 1;
      assert page[..nentries] == page[..nentries - 1] + [list[k]];
      assert list[..k + 1] == Decode(blocks) + page[..nentries];
      if nentries == perBlock {
        var block := OrphanBlock(page, index, orphanBlocks, nentries);
        AppendBlock(pack, start, blocks, block);
        AppendLabelled(blocks, block, orphanBlocks, perBlock);
        r := r[startBlk := Orphans(block)];
        MulNext(perBlock, |blocks|);
        blocks := blocks + [block];
        startBlk, index, nentries := startBlk + 1, index + 1, 0;
      }
    }
    CeilDivIs(|list|, perBlock, |blocks|, nentries);
    assert list[..|list|] == list;
    if nentries > 0 {
      var block := OrphanBlock(page, index, orphanBlocks, nentries);
      AppendBlock(pack, start, blocks, block);
      AppendLabelled(blocks, block, orphanBlocks, perBlock);
      r := r[startBlk := Orphans(block)];
      blocks := blocks + [block];
    }
    PlacedExactly(pack, start, blocks);
    OrphansFromPlaced(r, start, blocks, |blocks|);
    assert blocks[..|blocks|] == blocks;
  }

  // ----- orphan recovery

  /** The inode numbers named by `n` consecutive orphan blocks; Err when one of them is unreadable. */
  function OrphansFrom(pack: Pack, start: nat, n: nat): Result<seq<nat>> {
    if n == 0 then Ok([])
    else
      var before := OrphansFrom(pack, start, n - 1);
      if before.Ok? && start + n - 1 in pack && pack[start + n - 1].Orphans?
      then Ok(before.value + Entries(pack[start + n - 1].block))
      else Err
  }

  /** f2fs_recover_orphan_inodes: the inodes recovered, in order. */
  method RecoverOrphanInodes(pack: Pack, ckpt: Ckpt, payload: nat) returns (r: Result<seq<nat>>)
    requires 1 + payload <= ckpt.startSum
    ensures !ckpt.orphanPresent ==> r == Ok([])
    ensures ckpt.orphanPresent ==> r == OrphansFrom(pack, 1 + payload, ckpt.startSum - 1 - payload)
  {
    if !ckpt.orphanPresent {
      return Ok([]);
    }
    var startBlk := 1 + payload;
    var orphanBlocks := ckpt.startSum - 1 - payload;
    var inos := [];
    for i := 0 to orphanBlocks
      invariant OrphansFrom(pack, startBlk, i) == Ok(inos)
    {
      if startBlk + i !in pack || !pack[startBlk + i].Orphans? {
        ErrStays(pack, startBlk, i + 1, orphanBlocks);
        return Err;
      }
      var block := pack[startBlk + i].block;
      ghost var before := inos;
      var j := 0;
      while j < block.entryCount && j < |block.ino|
        invariant 0 <= j <= |Entries(block)|
        invariant inos == before + Entries(block)[..j]
      {
        assert Entries(block)[..j + 1] == Entries(block)[..j] + [block.ino[j]];
        inos := inos + [block.ino[j]];
        j := j + 1;
      }
      assert Entries(block)[..j] == Entries(block);
    }
    return Ok(inos);
  }

  lemma ErrStays(pack: Pack, start: nat, i: nat, n: nat)
    requires i <= n && OrphansFrom(pack, start, i).Err?
    ensures OrphansFrom(pack, start, n).Err?
  {
  }

  /** Reading back the blocks that were placed gives what they encode. */
  lemma {:induction false} OrphansFromPlaced(pack: Pack, start: nat, blocks: seq<OrphanBlock>, n: nat)
    requires n <= |blocks|
    requires PlacedAt(pack, start, blocks)
    ensures OrphansFrom(pack, start, n) == Ok(Decode(blocks[..n]))
  {
    if n > 0 {
      OrphansFromPlaced(pack, start, blocks, n - 1);
      assert blocks[..n][..n - 1] == blocks[..n - 1];
      assert pack[start + (n - 1)] == Orphans(blocks[n - 1]);
    }
  }

  /** Data summaries from `start` on, and node summaries behind them. */
  ghost predicate HasSummaries(pack: Pack, start: nat, dataSum: nat, end: nat) {
    forall o :: start <= o < end ==>
      o in pack && pack[o] == if o < start + dataSum then DataSummary(o - start) else NodeSummary(o - start - dataSum)
  }

  ghost predicate HasPayload(pack: Pack, end: nat) {
    forall o :: 1 <= o < end ==> o in pack && pack[o] == PayloadBlock(o)
  }

  ghost predicate HasNatBits(pack: Pack, start: nat, end: nat) {
    forall o :: start <= o < end ==> o in pack && pack[o] == NatBits(o - start)
  }

  /** What is at each offset of a pack, apart from the orphan blocks before the summaries. */
  ghost predicate LaidOut(pack: Pack, ckpt: Ckpt, payload: nat, dataSum: nat, natStart: nat, bps: nat) {
    && ckpt.total > 0 && 0 in pack && ckpt.total - 1 in pack
    && pack[0] == pack[ckpt.total - 1] == CkptBlock(ckpt)
    && HasPayload(pack, 1 + payload)
    && HasSummaries(pack, ckpt.startSum, dataSum, ckpt.total - 1)
    && HasNatBits(pack, natStart, bps)
  }

  /** The summary blocks of the current data segments, then of the node segments if they are kept. */
  method WriteSummaries(pack: Pack, start: nat, dataSum: nat, nodes: bool) returns (end: nat, r: Pack)
    ensures end == start + dataSum + (if nodes then NR_CURSEG_NODE_TYPE else 0)
    ensures Extends(pack, r, start, end) && HasSummaries(r, start, dataSum, end)
  {
    hide Extends, HasSummaries;
    r, end := pack, start;
    NoneWritten(pack, start, dataSum);
    for i := 0 to dataSum
      invariant end == start + i
      invariant Extends(pack, r, start, end) && HasSummaries(r, start, dataSum, end)
    {
      OneWritten(pack, r, start, dataSum, end, DataSummary(i));
      r, end := r[end := DataSummary(i)], end + 1;
    }
    if nodes {
      for i := 0 to NR_CURSEG_NODE_TYPE
        invariant end == start + dataSum + i
        invariant Extends(pack, r, start, end) && HasSummaries(r, start, dataSum, end)
      {
        OneWritten(pack, r, start, dataSum, end, NodeSummary(i));
        r, end := r[end := NodeSummary(i)], end + 1;
      }
    }
  }

  lemma NoneWritten(pack: Pack, start: nat, dataSum: nat)
    ensures Extends(pack, pack, start, start) && HasSummaries(pack, start, dataSum, start)
  {
  }

  lemma OneWritten(pack: Pack, r: Pack, start: nat, dataSum: nat, end: nat, block: PackBlock)
    requires Extends(pack, r, start, end) && HasSummaries(r, start, dataSum, end) && start <= end
    requires block == if end < start + dataSum then DataSummary(end - start) else NodeSummary(end - start - dataSum)
    ensures Extends(pack, r[end := block], start, end + 1) && HasSummaries(r[end := block], start, dataSum, end + 1)
  {
  }

  method WriteNatBits(blk: nat, natBlocks: nat) returns (r: Pack)
    ensures Extends(map[], r, blk, blk + natBlocks) && HasNatBits(r, blk, blk + natBlocks)
  {
    r := map[];
    for i := 0 to natBlocks
      invariant Extends(map[], r, blk, blk + i) && HasNatBits(r, blk, blk + i)
    {
      r := r[blk + i := NatBits(i)];
    }
  }

  method WritePayload(pack: Pack, payload: nat) returns (end: nat, r: Pack)
    ensures end == 1 + payload
    ensures Extends(pack, r, 1, end) && HasPayload(r, end)
  {
    r, end := pack, 1;
    for i := 1 to 1 + payload
      invariant end == i
      invariant Extends(pack, r, 1, end) && HasPayload(r, end)
    {
      r, end := r[end := PayloadBlock(i)], end + 1;
    }
  }

  // ----- the pack as the commit protocol sees it

  function ProtocolBlock(block: PackBlock): Protocol.Block {
    match block
    case CkptBlock(c) => Protocol.Header(c.version, c.total, 0)
    case _ => Protocol.Raw(0)
  }

  function ProtocolImage(pack: Pack): Protocol.Image {
    map o | o in pack :: ProtocolBlock(pack[o])
  }

  lemma Tiled(nat0: Pack, natStart: nat, bps: nat, ckpt: Ckpt, payload: nat, blocks: seq<OrphanBlock>,
              pack1: Pack, pack2: Pack, pack3: Pack)
    requires 1 + payload + |blocks| == ckpt.startSum < ckpt.total <= natStart <= bps
    requires Extends(map[], nat0, natStart, bps)
    requires Extends(nat0[0 := CkptBlock(ckpt)], pack1, 1, 1 + payload)
    requires Extends(pack1, pack2, 1 + payload, ckpt.startSum) && PlacedAt(pack2, 1 + payload, blocks)
    requires Extends(pack2, pack3, ckpt.startSum, ckpt.total - 1)
    ensures
      var pack := pack3[ckpt.total - 1 := CkptBlock(ckpt)];
      && (forall o :: o in pack <==> 0 <= o < ckpt.total || natStart <= o < bps)
      && PlacedAt(pack, 1 + payload, blocks)
      && Protocol.WellFormedImage(ProtocolImage(pack), bps, ckpt.version, ckpt.total - 1)
  {
    var pack := pack3[ckpt.total - 1 := CkptBlock(ckpt)];
    assert forall o :: o in pack && o != 0 && o != ckpt.total - 1 ==> !pack[o].CkptBlock?;
  }

  /** What an earlier piece wrote is not written over. */
  lemma Stays(pack: Pack, r: Pack, lo: nat, hi: nat, o: nat)
    requires Extends(pack, r, lo, hi) && o in pack && !(lo <= o < hi)
    ensures o in r && r[o] == pack[o]
  {
  }

  /** The pieces, written one after the other, tile the pack. */
  lemma Assembled(nat0: Pack, natStart: nat, bps: nat, ckpt: Ckpt, payload: nat, blocks: seq<OrphanBlock>,
                  pack1: Pack, pack2: Pack, pack3: Pack, dataSum: nat)
    requires 1 + payload + |blocks| == ckpt.startSum < ckpt.total <= natStart <= bps
    requires Extends(map[], nat0, natStart, bps) && HasNatBits(nat0, natStart, bps)
    requires Extends(nat0[0 := CkptBlock(ckpt)], pack1, 1, 1 + payload) && HasPayload(pack1, 1 + payload)
    requires Extends(pack1, pack2, 1 + payload, ckpt.startSum) && PlacedAt(pack2, 1 + payload, blocks)
    requires Extends(pack2, pack3, ckpt.startSum, ckpt.total - 1)
    requires HasSummaries(pack3, ckpt.startSum, dataSum, ckpt.total - 1)
    ensures
      var pack := pack3[ckpt.total - 1 := CkptBlock(ckpt)];
      && (forall o :: o in pack <==> 0 <= o < ckpt.total || natStart <= o < bps)
      && PlacedAt(pack, 1 + payload, blocks) && LaidOut(pack, ckpt, payload, dataSum, natStart, bps)
      && Protocol.WellFormedImage(ProtocolImage(pack), bps, ckpt.version, ckpt.total - 1)
  {
    hide Extends;
    Tiled(nat0, natStart, bps, ckpt, payload, blocks, pack1, pack2, pack3);
    var first, pack := nat0[0 := CkptBlock(ckpt)], pack3[ckpt.total - 1 := CkptBlock(ckpt)];
    forall o: nat | o == 0 || 1 <= o < 1 + payload || natStart <= o < bps
      ensures o in pack && pack[o] == if 1 <= o < 1 + payload then pack1[o] else first[o]
    {
      if !(1 <= o < 1 + payload) {
        Stays(first, pack1, 1, 1 + payload, o);
      }
      Stays(pack1, pack2, 1 + payload, ckpt.startSum, o);
      Stays(pack2, pack3, ckpt.startSum, ckpt.total - 1, o);
    }
  }

  /** The block writes of do_checkpoint, in order. */
  method WritePack(ckpt: Ckpt, list: seq<nat>, orphanBlocks: nat, bps: nat, natBlocks: nat,
                   payload: nat, perBlock: nat, dataSum: nat, nodes: bool)
    returns (pack: Pack)
    requires perBlock > 0 && natBlocks <= bps && 1 <= dataSum
    requires orphanBlocks == CeilDiv(|list|, perBlock)
    requires ckpt.startSum == 1 + payload + orphanBlocks
    requires ckpt.total == ckpt.startSum + dataSum + (if nodes then NR_CURSEG_NODE_TYPE else 0) + 1 <= bps - natBlocks
    ensures forall o :: o in pack <==> 0 <= o < ckpt.total || bps - natBlocks <= o < bps
    ensures Protocol.WellFormedImage(ProtocolImage(pack), bps, ckpt.version, ckpt.total - 1)
    ensures OrphansFrom(pack, 1 + payload, orphanBlocks) == Ok(list)
    ensures LaidOut(pack, ckpt, payload, dataSum, bps - natBlocks, bps)
  {
    hide Decode, PlaceOrphans, Labelled, CeilDiv, OrphansFrom, Extends, PlacedAt, Protocol.WellFormedImage,
      ProtocolImage, HasSummaries, HasPayload, HasNatBits, LaidOut;
    var startBlk;
    pack := WriteNatBits(bps - natBlocks, natBlocks);
    ghost var nat0 := pack;
    pack := pack[0 := CkptBlock(ckpt)];
    startBlk, pack := WritePayload(pack, payload);
    ghost var pack1 := pack;
    ghost var blocks: seq<OrphanBlock> := [];
    if |list| != 0 {
      pack, blocks := WriteOrphanInodes(pack, startBlk, list, orphanBlocks, perBlock);
      startBlk := startBlk + orphanBlocks;
    } else {
      CeilDivIs(0, perBlock, 0, 0);
      NoBlocks(pack, startBlk, orphanBlocks, perBlock);
    }
    PlacedExactly(pack1, 1 + payload, blocks);
    ghost var pack2 := pack;
    startBlk, pack := WriteSummaries(pack, startBlk, dataSum, nodes);
    ghost var pack3 := pack;
    // the last block, written by commit_checkpoint
    pack := pack[startBlk := CkptBlock(ckpt)];
    Assembled(nat0, bps - natBlocks, bps, ckpt, payload, blocks, pack1, pack2, pack3, dataSum);
    OrphansFromPlaced(pack, 1 + payload, blocks, |blocks|);
    assert blocks[..|blocks|] == blocks;
  }

  function WithoutIndex<T>(s: seq<T>, k: nat): seq<T>
    requires k < |s|
  {
    s[..k] + s[k + 1..]
  }

  class CheckpointManager {
    const bps: nat             // sbi->blocks_per_seg
    const payload: nat         // __cp_payload
    const perBlock: nat        // F2FS_ORPHANS_PER_BLOCK
    const natBlocks: nat       // NM_I(sbi)->nat_bits_blocks
    const maxOrphans: nat      // sbi->max_orphans
    var inoList: seq<nat>      // im[ORPHAN_INO].ino_list
    var inoNum: nat            // im[ORPHAN_INO].ino_num
    var natBits: bool          // CP_NAT_BITS_FLAG
    ghost var reserved: nat    // slots acquired and neither filled nor released yet

    ghost predicate Valid()
      reads this
    {
      && perBlock > 0
      && F2FS_CP_PACKS + NR_CURSEG_PERSIST_TYPE + payload <= bps
      && natBlocks <= bps
      && maxOrphans == (bps - F2FS_CP_PACKS - NR_CURSEG_PERSIST_TYPE - payload) * perBlock
      && inoNum == |inoList| + reserved
      && inoNum <= maxOrphans
      && (forall i, j :: 0 <= i < j < |inoList| ==> inoList[i] != inoList[j])
    }

    constructor (bps: nat, payload: nat, perBlock: nat, natBlocks: nat)
      requires perBlock > 0
      requires F2FS_CP_PACKS + NR_CURSEG_PERSIST_TYPE + payload <= bps
      requires natBlocks <= bps
      ensures Valid() && inoList == [] && reserved == 0
      ensures this.bps == bps && this.payload == payload && this.perBlock == perBlock && this.natBlocks == natBlocks
    {
      this.bps, this.payload, this.perBlock, this.natBlocks := bps, payload, perBlock, natBlocks;
      maxOrphans := (bps - F2FS_CP_PACKS - NR_CURSEG_PERSIST_TYPE - payload) * perBlock;
      inoList, inoNum, natBits, reserved := [], 0, false, 0;
    }

    /** f2fs_acquire_orphan_inode; false is -ENOSPC. */
    method AcquireOrphan() returns (ok: bool)
      requires Valid()
      modifies this`inoNum, this`reserved
      ensures Valid()
      ensures ok <==> old(inoNum) < maxOrphans
      ensures reserved == old(reserved) + (if ok then 1 else 0)
    {
      if inoNum >= maxOrphans {
        return false;
      }
      inoNum, reserved := inoNum + 1, reserved + 1;
      return true;
    }

    /** f2fs_release_orphan_inode. */
    method ReleaseOrphan()
      requires Valid() && reserved > 0
      modifies this`inoNum, this`reserved
      ensures Valid() && reserved == old(reserved) - 1
    {
      inoNum, reserved := inoNum - 1, reserved - 1;
    }

    /** f2fs_add_orphan_inode: the count was taken by the reservation. */
    method AddOrphan(ino: nat)
      requires Valid() && (ino !in inoList ==> reserved > 0)
      modifies this`inoList, this`reserved
      ensures Valid()
      ensures if ino in old(inoList) then inoList == old(inoList) && reserved == old(reserved)
              else inoList == old(inoList) + [ino] && reserved == old(reserved) - 1
    {
      if ino !in inoList {
        inoList, reserved := inoList + [ino], reserved - 1;
      }
    }

    /** f2fs_remove_orphan_inode. */
    method RemoveOrphan(ino: nat)
      requires Valid()
      modifies this`inoList, this`inoNum
      ensures Valid()
      ensures ino !in inoList
      ensures forall x :: x != ino ==> (x in inoList <==> x in old(inoList))
      ensures ino !in old(inoList) ==> inoList == old(inoList)
      // the others keep their order
      ensures ino in old(inoList) ==>
        exists k :: 0 <= k < |old(inoList)| && old(inoList)[k] == ino && inoList == WithoutIndex(old(inoList), k)
    {
      if ino in inoList {
        var k :| 0 <= k < |inoList| && inoList[k] == ino;
        ghost var was := inoList;
        inoList, inoNum := WithoutIndex(inoList, k), inoNum - 1;
        assert was[k] == ino;
        assert forall x :: x in was <==> x in was[..k] || x == ino || x in was[k + 1..];
      }
    }

    /** do_checkpoint up to its last block: where every block of the pack goes. */
    method LayPack(version: nat, umount: bool, fastboot: bool, dataSum: nat, natEnabled: bool)
      returns (pack: Pack, ckpt: Ckpt)
      requires Valid()
      // all orphan operations are finished under f2fs_lock_op
      requires reserved == 0
      // f2fs_npages_for_summary_flush
      requires 1 <= dataSum <= NR_CURSEG_DATA_TYPE
      modifies this`natBits
      ensures Valid()
      ensures ckpt == Ckpt(version, 1 + payload + CeilDiv(|inoList|, perBlock),
                           ckpt.startSum + dataSum + (if umount || fastboot then NR_CURSEG_NODE_TYPE else 0) + 1,
                           umount, inoList != [], natBits)
      // update_ckpt_flags: nat_bits are kept or rebuilt on unmount exactly if they fit behind the pack
      ensures natBits == if umount then ckpt.total <= bps - natBlocks && (old(natBits) || natEnabled) else old(natBits)
      ensures ckpt.total <= bps
      ensures 1 + payload <= ckpt.startSum < ckpt.total
      // nat_bits blocks sit at the end of the segment, clear of the pack
      ensures forall o :: o in pack <==>
        0 <= o < ckpt.total || (umount && natBits && bps - natBlocks <= o < bps)
      ensures umount && natBits ==> ckpt.total <= bps - natBlocks
      ensures Protocol.WellFormedImage(ProtocolImage(pack), bps, version, ckpt.total - 1)
      ensures OrphansFrom(pack, 1 + payload, ckpt.startSum - 1 - payload) == Ok(inoList)
      ensures LaidOut(pack, ckpt, payload, dataSum, if umount && natBits then bps - natBlocks else bps, bps)
    {
      hide LaidOut, OrphansFrom, ProtocolImage, Protocol.WellFormedImage, CeilDiv;
      var orphanBlocks := CeilDiv(inoNum, perBlock);
      OrphanBlocksBound(inoNum, perBlock, bps - F2FS_CP_PACKS - NR_CURSEG_PERSIST_TYPE - payload);
      var startSum := 1 + payload + orphanBlocks;
      var total := F2FS_CP_PACKS + payload + dataSum + orphanBlocks;
      if umount || fastboot {
        total := total + NR_CURSEG_NODE_TYPE;
      }
      // update_ckpt_flags
      if umount {
        if total > bps - natBlocks {
          natBits := false;
        } else if !natBits && natEnabled {
          natBits := true;
        }
      }
      ckpt := Ckpt(version, startSum, total, umount, inoNum != 0, natBits);
      pack := WritePack(ckpt, inoList, orphanBlocks, bps, if umount && natBits then natBlocks else 0,
                        payload, perBlock, dataSum, umount || fastboot);
    }
  }
}
