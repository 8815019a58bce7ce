/**
 The two-pack checkpoint commit protocol, as a state machine over its steps.

 The checkpoint area is two adjacent segments.  A checkpoint writes every block of its
 pack but the last one, waits for those writes, and only then issues the last block with
 PREFLUSH|FUA.  Writes sit in a volatile device cache until they are flushed, so a power
 cut keeps an arbitrary subset of them.  Mount picks the newer pack whose first and last
 blocks carry the same version.
 */
module CheckpointProtocol {
  import opened Prelude

  /** checkpoint_ver is a 64-bit field. */
  const VERSION_SPAN: nat := 0x1_0000_0000_0000_0000

  /**
   A block of the checkpoint area.  `Header` is a block that passes the checkpoint CRC;
   its serial number counts checkpoints without bound and only the low 64 bits are stored.
   `body` stands for everything else in the block, which the protocol never reads.
   */
  datatype Block =
    | Raw(body: nat)
    | Header(serial: nat, total: nat, body: nat)

  /** The blocks one checkpoint attempt writes, by offset in its segment. */
  type Image = map<nat, Block>

  type Disk = seq<Block>

  // ----- what mount reads

  function Start(bps: nat, pack: nat): nat {
    if pack == 2 then bps else 0
  }

  function OtherPack(pack: nat): nat {
    if pack == 1 then 2 else 1
  }

  function ReadBlock(disk: Disk, addr: int): Block {
    if 0 <= addr < |disk| then disk[addr] else Raw(0)
  }

  function GetCheckpointVersion(disk: Disk, addr: int): Option<nat> {
    match ReadBlock(disk, addr)
    case Header(serial, _, _) => Some(serial % VERSION_SPAN)
    case Raw(_) => None
  }

  function ValidateCheckpoint(disk: Disk, bps: nat, start: nat): Option<nat> {
    match ReadBlock(disk, start)
    case Raw(_) => None
    case Header(serial, total, _) =>
      if total > bps then None
      else
        var second := GetCheckpointVersion(disk, start + total - 1);
        if second == Some(serial % VERSION_SPAN) then second else None
  }

  /** A pack is valid if its first block names a last block inside the segment that carries the same version. */
  lemma ValidPack(disk: Disk, bps: nat, start: nat, v: nat)
    ensures ValidateCheckpoint(disk, bps, start) == Some(v) <==>
      var first := ReadBlock(disk, start);
      first.Header? && first.total <= bps &&
      var last := ReadBlock(disk, start + first.total - 1);
      last.Header? && first.serial % VERSION_SPAN == last.serial % VERSION_SPAN == v
  {
  }

  /** The sign of the 64-bit difference of two versions. */
  predicate VerAfter(a: nat, b: nat) {
    0 < (a - b) % VERSION_SPAN < VERSION_SPAN / 2
  }

  datatype Selected = NoCheckpoint | Selected(pack: nat, header: Block)

  function GetValidCheckpoint(disk: Disk, bps: nat): Selected {
    var cp1 := ValidateCheckpoint(disk, bps, Start(bps, 1));
    var cp2 := ValidateCheckpoint(disk, bps, Start(bps, 2));
    var first := Selected(1, ReadBlock(disk, Start(bps, 1)));
    var second := Selected(2, ReadBlock(disk, Start(bps, 2)));
    if cp1.Some? && cp2.Some? then
      if VerAfter(cp2.value, cp1.value) then second else first
    else if cp1.Some? then first
    else if cp2.Some? then second
    else NoCheckpoint
  }

  // ----- the protocol state

  /** Where the checkpoint thread stands in do_checkpoint. */
  datatype Phase =
    | Down          // not mounted
    | Idle          // mounted, no checkpoint running
    | Writing       // pack pages dirtied, being submitted
    | Drained       // past the wait on dirty meta pages
    | Waited        // past the wait on pages under writeback
    | Barrier       // last block issued, device has not flushed yet
    | LastInFlight  // cache flushed, last block may reach the medium

  /** The medium: what survives a power cut, and which attempt it holds. */
  datatype Medium = Medium(
    bps: nat,               // blocks per segment
    origin: nat,            // serial of the pack mkfs wrote
    disk: Disk,
    // history variables: the newest attempt whose last block reached the medium
    pack: nat,
    image: Image,
    last: nat
  )

  /** Where one page of the running attempt stands. */
  datatype Io =
    | Dirty      // not submitted yet
    | InFlight   // submitted and with the device, end_io has not run
    | Lost       // submitted, the device has it no more, end_io has not run
    | Failing    // end_io has raised the error flag and not yet dropped the page count
    | Done       // completed without error
    | Dropped    // completed with error

  datatype State = State(
    medium: Medium,
    cache: map<nat, Block>,  // writes the device holds in volatile memory
    phase: Phase,
    error: bool,             // the sticky CP_ERROR flag
    curPack: nat,            // sbi->cur_cp_pack
    serial: nat,             // sbi->ckpt->checkpoint_ver, untruncated
    image: Image,            // the running attempt
    last: nat,               // offset of its last block
    io: map<nat, Io>         // its other blocks
  )

  /** The pages a page counter covers. */
  function Pages(io: map<nat, Io>, states: set<Io>): set<nat> {
    set o | o in io && io[o] in states
  }

  /** What do_checkpoint lays out: equal first and last blocks, nothing else with a CRC. */
  ghost predicate WellFormedImage(image: Image, bps: nat, serial: nat, last: nat) {
    && 1 <= last < bps
    && (forall o :: 0 <= o <= last ==> o in image)
    && (forall o :: o in image ==> o < bps)
    && image[0].Header?
    && image[0].serial == serial
    && image[0].total == last + 1
    && image[last] == image[0]
    && (forall o :: o in image && o != 0 && o != last ==> image[o].Raw?)
  }

  /** What becomes of a write the device is given. */
  datatype Fate =
    | Held     // in the device cache
    | Ignored  // never taken; an older write to the block stays
    | Erased   // gone together with the older one

  datatype Step =
    | Begin(newImage: Image, newLast: nat)
    | Submit(o: nat, fate: Fate)
    | Complete(o: nat)
    | RaiseError(o: nat)
    | DropFailed(o: nat)
    | OtherError
    | WaitDirty
    | WaitWriteback
    | CommitLast
    | Flush
    | Persist(addr: nat)
    | PersistLast
    | CompleteLast(ok: bool)
    | PowerCut
    | Unmount
    | Mount

  predicate InIo(s: State, o: nat, state: Io) {
    o in s.io && s.io[o] == state
  }

  ghost predicate Enabled(s: State, step: Step) {
    match step
    case Begin(image, last) =>
      && s.phase == Idle && !s.error
      && WellFormedImage(image, s.medium.bps, s.serial + 1, last)
    case Submit(o, _) => s.phase == Writing && InIo(s, o, Dirty) && !s.error
    case Complete(o) => InIo(s, o, InFlight)
    case RaiseError(o) => InIo(s, o, InFlight) || InIo(s, o, Lost)
    case DropFailed(o) => InIo(s, o, Failing)
    case OtherError => s.phase != Down
    // f2fs_wait_on_all_pages leaves its loop on a zero count or on the error flag
    case WaitDirty => s.phase == Writing && (Pages(s.io, {Dirty}) == {} || s.error)
    case WaitWriteback => s.phase == Drained && (Pages(s.io, {InFlight, Lost, Failing}) == {} || s.error)
    case CommitLast => s.phase == Waited
    case Flush => s.phase == Barrier
    case Persist(addr) => addr in s.cache
    case PersistLast => s.phase == LastInFlight
    // FUA: success is reported only once the block is on the medium
    case CompleteLast(ok) =>
      s.phase == LastInFlight && (ok ==> s.medium.image == s.image && s.medium.pack == OtherPack(s.curPack))
    case PowerCut => true
    case Unmount => s.phase == Idle
    case Mount => s.phase == Down
  }

  function BlockOf(image: Image, o: nat): Block {
    if o in image then image[o] else Raw(0)
  }

  function WriteBlock(disk: Disk, addr: nat, block: Block): Disk {
    if addr < |disk| then disk[addr := block] else disk
  }

  /** All writes in the device cache reach the medium. */
  function FlushCache(disk: Disk, cache: map<nat, Block>): Disk {
    seq(|disk|, i requires 0 <= i < |disk| => if i in cache then cache[i] else disk[i])
  }

  /** The medium as reads see it: the device answers from its cache first. */
  function Seen(s: State): Medium {
    s.medium.(disk := FlushCache(s.medium.disk, s.cache))
  }

  /** First address of the segment the running attempt writes. */
  function Target(s: State): nat {
    Start(s.medium.bps, OtherPack(s.curPack))
  }

  ghost function Apply(s: State, step: Step): State
    requires Enabled(s, step)
  {
    match step
    case Begin(image, last) =>
      s.(phase := Writing, serial := s.serial + 1, image := image, last := last,
         io := map o | o in image && o != last :: Dirty)
    case Submit(o, Held) =>
      s.(io := s.io[o := InFlight], cache := s.cache[Target(s) + o := BlockOf(s.image, o)])
    case Submit(o, Ignored) => s.(io := s.io[o := Lost])
    case Submit(o, Erased) => s.(io := s.io[o := Lost], cache := s.cache - {Target(s) + o})
    case Complete(o) => s.(io := s.io[o := Done])
    case RaiseError(o) => s.(io := s.io[o := Failing], error := true)
    case DropFailed(o) => s.(io := s.io[o := Dropped])
    case OtherError => s.(error := true)
    case WaitDirty => s.(phase := Drained)
    case WaitWriteback => s.(phase := Waited)
    case CommitLast =>
      // __f2fs_write_meta_page refuses under the error flag; the pack index flips all the same
      if s.error then s.(phase := Idle, curPack := OtherPack(s.curPack))
      else s.(phase := Barrier)
    case Flush =>
      s.(phase := LastInFlight, medium := s.medium.(disk := FlushCache(s.medium.disk, s.cache)), cache := map[])
    case Persist(addr) =>
      s.(medium := s.medium.(disk := WriteBlock(s.medium.disk, addr, s.cache[addr])))
    case PersistLast =>
      s.(medium := s.medium.(disk := WriteBlock(s.medium.disk, Target(s) + s.last, BlockOf(s.image, s.last)),
                             pack := OtherPack(s.curPack), image := s.image, last := s.last))
    case CompleteLast(ok) =>
      s.(phase := Idle, error := s.error || !ok, curPack := OtherPack(s.curPack))
    case PowerCut => s.(phase := Down, cache := map[], io := map[])
    // the device stays powered, so its cache stays too
    case Unmount => s.(phase := Down, io := map[])
    case Mount =>
      match GetValidCheckpoint(Seen(s).disk, s.medium.bps)
      case NoCheckpoint => s
      case Selected(pack, Raw(_)) => s
      case Selected(pack, Header(serial, _, _)) =>
        s.(phase := Idle, error := false, curPack := pack, serial := serial)
  }

  ghost predicate Stored(disk: Disk, start: nat, image: Image) {
    forall o :: o in image ==> start + o < |disk| && disk[start + o] == image[o]
  }

  /** After mkfs: pack 1 is whole, nothing in segment 2 passes the CRC. */
  ghost predicate Init(s: State) {
    var m := s.medium;
    && s.phase == Down
    && |m.disk| == 2 * m.bps
    && s.cache == map[]
    && s.io == map[]
    && s.curPack == 1 && m.pack == 1
    && WellFormedImage(m.image, m.bps, m.origin, m.last)
    && Stored(m.disk, 0, m.image)
    && (forall a :: 1 <= a < 2 * m.bps && a != m.last ==> m.disk[a].Raw?)
  }

  // ----- the invariant

  function Serial(image: Image): nat {
    match BlockOf(image, 0)
    case Header(serial, _, _) => serial
    case Raw(_) => 0
  }

  /** Every CRC-valid block past offset 0 of a segment was written by checkpoints origin..most. */
  ghost predicate TailsWithin(disk: Disk, start: nat, bps: nat, origin: nat, most: int) {
    forall a :: start < a < start + bps && a < |disk| && disk[a].Header? ==> origin <= disk[a].serial <= most
  }

  /** First block of the segment that is not committed: the pack before, or a failed attempt. */
  ghost predicate SpareHead(block: Block, g: nat, bps: nat, origin: nat) {
    block.Header? ==>
      && (block.serial == g + 1 || block.serial == g - 1)
      && origin <= block.serial
      && 2 <= block.total <= bps
  }

  /** First address of the segment that does not hold the committed pack. */
  function Spare(m: Medium): nat {
    Start(m.bps, OtherPack(m.pack))
  }

  ghost predicate MediumInv(m: Medium) {
    var g := Serial(m.image);
    && 2 <= m.bps
    && |m.disk| == 2 * m.bps
    && m.pack in {1, 2}
    && m.origin <= g
    && WellFormedImage(m.image, m.bps, g, m.last)
    && Stored(m.disk, Start(m.bps, m.pack), m.image)
    && TailsWithin(m.disk, Start(m.bps, m.pack), m.bps, m.origin, g)
    && TailsWithin(m.disk, Spare(m), m.bps, m.origin, g - 1)
    && SpareHead(m.disk[Spare(m)], g, m.bps, m.origin)
  }

  /** The device cache only holds blocks of an attempt on the spare segment, never its last block. */
  ghost predicate CacheInv(m: Medium, cache: map<nat, Block>) {
    forall a :: a in cache ==>
      && Spare(m) <= a < Spare(m) + m.bps
      && (a == Spare(m) ==> SpareHead(cache[a], Serial(m.image), m.bps, m.origin))
      && (a != Spare(m) ==> cache[a].Raw?)
  }

  ghost predicate AttemptInv(s: State) {
    && WellFormedImage(s.image, s.medium.bps, s.serial, s.last)
    && (forall o :: o in s.io <==> o in s.image && o != s.last)
  }

  /** A failure is never unnoticed: the error flag is up before the page count drops. */
  ghost predicate GateInv(phase: Phase, error: bool, io: map<nat, Io>) {
    && (phase in {Writing, Drained, Waited} && !error ==> forall o :: o in io ==> io[o] !in {Failing, Dropped})
    && (phase in {Drained, Waited} && !error ==> forall o :: o in io ==> io[o] != Dirty)
    && (phase == Waited && !error ==> forall o :: o in io ==> io[o] !in {InFlight, Lost})
    && (phase in {Barrier, LastInFlight} ==> forall o :: o in io ==> io[o] == Done)
  }

  ghost predicate NotYetCommitted(s: State) {
    s.curPack == s.medium.pack && s.serial == Serial(s.medium.image) + 1
  }

  /** Every page submitted and not lost or failed is in the device cache. */
  ghost predicate SubmittedInv(io: map<nat, Io>, cache: map<nat, Block>, target: nat, image: Image) {
    forall o :: o in io && io[o] in {InFlight, Done} ==> target + o in cache && cache[target + o] == BlockOf(image, o)
  }

  ghost predicate StoredButLast(disk: Disk, start: nat, image: Image, last: nat) {
    forall o :: o in image && o != last ==> ReadBlock(disk, start + o) == image[o]
  }

  /** Once the device has flushed, everything but the last block is on the medium. */
  ghost predicate LastInv(s: State) {
    && s.cache == map[]
    && StoredButLast(s.medium.disk, Target(s), s.image, s.last)
    && (NotYetCommitted(s) ||
        (s.medium.pack == OtherPack(s.curPack) && s.medium.image == s.image && s.medium.last == s.last))
  }

  ghost predicate Inv(s: State) {
    && MediumInv(s.medium)
    && CacheInv(s.medium, s.cache)
    && s.curPack in {1, 2}
    && GateInv(s.phase, s.error, s.io)
    && (s.phase in {Writing, Drained, Waited, Barrier, LastInFlight} ==> AttemptInv(s))
    && (s.phase in {Writing, Drained, Waited, Barrier} ==>
        NotYetCommitted(s) && SubmittedInv(s.io, s.cache, Target(s), s.image))
    && (s.phase == LastInFlight ==> LastInv(s))
    && (s.phase == Idle && !s.error ==> s.curPack == s.medium.pack && s.serial == Serial(s.medium.image))
    && (s.phase == Down ==> s.io == map[])
  }

  // ----- what the device does

  /** A block as reads see it. */
  ghost function Reads(s: State, a: nat): Block {
    ReadBlock(Seen(s).disk, a)
  }

  /**
   The device may do its worst: any page may be held, ignored or erased; anything in flight may complete or
   fail, and what is lost must fail; cached writes may reach the medium in any order; power may fail at any time.
   */
  lemma NothingIsRuledOut(s: State, o: nat, fate: Fate, a: nat)
    ensures s.phase == Writing && !s.error && InIo(s, o, Dirty) ==> Enabled(s, Submit(o, fate))
    ensures InIo(s, o, InFlight) ==> Enabled(s, Complete(o)) && Enabled(s, RaiseError(o))
    ensures InIo(s, o, Lost) ==> Enabled(s, RaiseError(o)) && !Enabled(s, Complete(o))
    ensures InIo(s, o, Failing) ==> Enabled(s, DropFailed(o))
    ensures a in s.cache ==> Enabled(s, Persist(a))
    ensures s.phase == LastInFlight ==> Enabled(s, PersistLast) && Enabled(s, CompleteLast(false))
    ensures Enabled(s, PowerCut) && (s.phase != Down ==> Enabled(s, OtherError))
  {
  }

  /** What its steps do to the medium and to what is read. */
  lemma DeviceSteps(s: State, step: Step, a: nat)
    requires Inv(s) && Enabled(s, step) && a < |s.medium.disk|
    ensures |Apply(s, step).medium.disk| == |s.medium.disk|
    ensures Apply(s, step).medium.disk[a] ==
      if step.Flush? || (step.Persist? && a == step.addr) then Reads(s, a)
      else if step.PersistLast? && a == Target(s) + s.last then BlockOf(s.image, s.last)
      else s.medium.disk[a]
    // a write is read back from the cache, unless the device lost it; a power cut loses what is not on the medium
    ensures Reads(Apply(s, step), a) ==
      if step.Submit? && a == Target(s) + step.o && step.fate == Held then BlockOf(s.image, step.o)
      else if step.PowerCut? || (step.Submit? && a == Target(s) + step.o && step.fate == Erased) then s.medium.disk[a]
      else if step.PersistLast? && a == Target(s) + s.last then BlockOf(s.image, s.last)
      else Reads(s, a)
  {
    hide Inv, FlushCache, WriteBlock, GetValidCheckpoint;
    var s' := Apply(s, step);
    Flushed(s, a);
    Flushed(s', a);
    if step.Persist? {
      Rewritten(s.medium.disk, step.addr, s.cache[step.addr], a);
    } else if step.PersistLast? {
      NoCacheLeft(s);
      Rewritten(s.medium.disk, Target(s) + s.last, BlockOf(s.image, s.last), a);
    }
  }

  lemma Flushed(s: State, a: nat)
    ensures |FlushCache(s.medium.disk, s.cache)| == |s.medium.disk|
    ensures a < |s.medium.disk| ==>
      FlushCache(s.medium.disk, s.cache)[a] == Reads(s, a) == if a in s.cache then s.cache[a] else s.medium.disk[a]
  {
  }

  lemma Rewritten(disk: Disk, addr: nat, block: Block, a: nat)
    ensures |WriteBlock(disk, addr, block)| == |disk|
    ensures a < |disk| ==> WriteBlock(disk, addr, block)[a] == if a == addr then block else disk[a]
  {
  }

  lemma NoCacheLeft(s: State)
    requires Inv(s) && s.phase == LastInFlight
    ensures s.cache == map[]
  {
  }

  // ----- mount selects the committed pack

  lemma {:induction false} SameVersionSameSerial(a: nat, b: nat, origin: nat)
    requires origin <= a < origin + VERSION_SPAN
    requires origin <= b < origin + VERSION_SPAN
    ensures a % VERSION_SPAN == b % VERSION_SPAN <==> a == b
  {
    assert a == VERSION_SPAN * (a / VERSION_SPAN) + a % VERSION_SPAN;
    assert b == VERSION_SPAN * (b / VERSION_SPAN) + b % VERSION_SPAN;
  }

  /** The spare segment starts with a torn attempt whose last block, an older one, carries the same 64 bits. */
  ghost predicate Aliased(m: Medium) {
    var head := ReadBlock(m.disk, Spare(m));
    && head.Header? && head.serial == Serial(m.image) + 1
    && GetCheckpointVersion(m.disk, Spare(m) + head.total - 1) == Some(head.serial % VERSION_SPAN)
  }

  lemma SpareIsInvalidOrOlder(m: Medium)
    requires MediumInv(m)
    ensures
      var v := ValidateCheckpoint(m.disk, m.bps, Spare(m));
      var g := Serial(m.image);
      if Aliased(m) then v == Some((g + 1) % VERSION_SPAN)
      else v.Some? ==> g >= 1 && v.value == (g - 1) % VERSION_SPAN
  {
  }

  /** Short of 2^64 checkpoints since mkfs an older last block cannot be mistaken. */
  lemma NotAliasedBelowWrap(m: Medium)
    requires MediumInv(m) && Serial(m.image) + 1 < m.origin + VERSION_SPAN
    ensures !Aliased(m)
  {
    var head := ReadBlock(m.disk, Spare(m));
    if head.Header? && head.serial == Serial(m.image) + 1 {
      var tail := ReadBlock(m.disk, Spare(m) + head.total - 1);
      if tail.Header? {
        SameVersionSameSerial(head.serial, tail.serial, m.origin);
      }
    }
  }

  lemma CommittedIsValid(m: Medium)
    requires MediumInv(m)
    ensures
      var c := Start(m.bps, m.pack);
      && m.disk[c] == m.image[0]
      && ValidateCheckpoint(m.disk, m.bps, c) == Some(Serial(m.image) % VERSION_SPAN)
  {
    var c := Start(m.bps, m.pack);
    assert m.disk[c + 0] == m.image[0];
    assert m.disk[c + m.last] == m.image[m.last];
  }

  lemma OlderIsNotAfter(g: nat)
    requires g >= 1
    ensures VerAfter(g % VERSION_SPAN, (g - 1) % VERSION_SPAN)
    ensures !VerAfter((g - 1) % VERSION_SPAN, g % VERSION_SPAN)
  {
    var a, b := g % VERSION_SPAN, (g - 1) % VERSION_SPAN;
    assert a - b == 1 || a - b == 1 - VERSION_SPAN;
  }

  /** Mount selects the committed pack if and only if the spare segment is not aliased; else it takes the torn one. */
  lemma MountSelectsCommitted(m: Medium)
    requires MediumInv(m)
    ensures GetValidCheckpoint(m.disk, m.bps) == Selected(m.pack, m.image[0]) <==> !Aliased(m)
    ensures Aliased(m) ==> GetValidCheckpoint(m.disk, m.bps) == Selected(OtherPack(m.pack), ReadBlock(m.disk, Spare(m)))
  {
    CommittedIsValid(m);
    SpareIsInvalidOrOlder(m);
    OlderIsNotAfter(Serial(m.image) + 1);
    if Serial(m.image) >= 1 {
      OlderIsNotAfter(Serial(m.image));
    }
  }

  // ----- every step keeps the invariant

  lemma InitInv(s: State)
    requires Init(s)
    ensures Inv(s)
  {
    var m := s.medium;
    assert m.disk[0 + 0] == m.image[0];
    assert m.disk[0 + m.last] == m.image[m.last];
    assert m.disk[m.bps].Raw?;
  }

  /** Raw blocks and heads written to the spare segment leave the committed pack in charge. */
  lemma SpareWritesKeepMedium(m: Medium, disk: Disk)
    requires MediumInv(m)
    requires |disk| == |m.disk|
    requires forall a :: 0 <= a < |disk| && disk[a] != m.disk[a] ==>
      && Spare(m) <= a < Spare(m) + m.bps
      && (a == Spare(m) ==> SpareHead(disk[a], Serial(m.image), m.bps, m.origin))
      && (a != Spare(m) ==> disk[a].Raw?)
    ensures MediumInv(m.(disk := disk))
  {
    hide WellFormedImage;
    var c := Start(m.bps, m.pack);
    CommittedFits(m);
    assert Stored(disk, c, m.image) by {
      forall o | o in m.image ensures disk[c + o] == m.image[o] {
        assert m.disk[c + o] == m.image[o];
      }
    }
    assert TailsWithin(disk, c, m.bps, m.origin, Serial(m.image));
  }

  lemma CommittedFits(m: Medium)
    requires MediumInv(m)
    ensures forall o :: o in m.image ==> o < m.bps
  {
  }

  /** The last block makes the spare segment the committed one. */
  lemma LastBlockCommits(m: Medium, image: Image, last: nat)
    requires MediumInv(m)
    requires WellFormedImage(image, m.bps, Serial(m.image) + 1, last)
    requires StoredButLast(m.disk, Spare(m), image, last)
    ensures MediumInv(m.(disk := WriteBlock(m.disk, Spare(m) + last, image[last]),
                         pack := OtherPack(m.pack), image := image, last := last))
  {
    var disk := WriteBlock(m.disk, Spare(m) + last, image[last]);
    var c := Start(m.bps, m.pack);
    assert Stored(disk, Spare(m), image) by {
      forall o | o in image ensures disk[Spare(m) + o] == image[o] {
        assert o != last ==> ReadBlock(m.disk, Spare(m) + o) == image[o];
      }
    }
    assert m.disk[c + 0] == m.image[0];
  }

  lemma BeginInv(s: State, step: Step)
    requires Inv(s) && step.Begin? && Enabled(s, step)
    ensures Inv(Apply(s, step))
  {}

  lemma SubmitHeldInv(s: State, step: Step)
    requires Inv(s) && step.Submit? && step.fate == Held && Enabled(s, step)
    ensures Inv(Apply(s, step))
  {
    hide MediumInv;
    MediumFacts(s.medium);
  }

  lemma MediumFacts(m: Medium)
    requires MediumInv(m)
    ensures 2 <= m.bps && m.pack in {1, 2} && m.origin <= Serial(m.image)
  {
  }

  /** A write that is lost takes nothing from the invariant: its page never counts as done. */
  lemma SubmitLostInv(s: State, step: Step)
    requires Inv(s) && step.Submit? && step.fate != Held && Enabled(s, step)
    ensures Inv(Apply(s, step))
  {
    hide MediumInv, WellFormedImage;
  }

  lemma SubmitInv(s: State, step: Step)
    requires Inv(s) && step.Submit? && Enabled(s, step)
    ensures Inv(Apply(s, step))
  {
    hide Inv, Enabled, Apply;
    if step.fate == Held {
      SubmitHeldInv(s, step);
    } else {
      SubmitLostInv(s, step);
    }
  }

  lemma CompleteInv(s: State, step: Step)
    requires Inv(s) && step.Complete? && Enabled(s, step)
    ensures Inv(Apply(s, step))
  {
    hide MediumInv;
  }

  lemma RaiseErrorInv(s: State, step: Step)
    requires Inv(s) && step.RaiseError? && Enabled(s, step)
    ensures Inv(Apply(s, step))
  {}

  lemma DropFailedInv(s: State, step: Step)
    requires Inv(s) && step.DropFailed? && Enabled(s, step)
    ensures Inv(Apply(s, step))
  {}

  lemma OtherErrorInv(s: State, step: Step)
    requires Inv(s) && step.OtherError? && Enabled(s, step)
    ensures Inv(Apply(s, step))
  {}

  lemma WaitDirtyInv(s: State, step: Step)
    requires Inv(s) && step.WaitDirty? && Enabled(s, step)
    ensures Inv(Apply(s, step))
  {
    forall o | o in s.io ensures s.error || s.io[o] != Dirty {
      assert s.io[o] == Dirty ==> o in Pages(s.io, {Dirty});
    }
  }

  lemma WaitWritebackInv(s: State, step: Step)
    requires Inv(s) && step.WaitWriteback? && Enabled(s, step)
    ensures Inv(Apply(s, step))
  {
    forall o | o in s.io ensures s.error || s.io[o] !in {InFlight, Lost, Failing} {
      assert s.io[o] in {InFlight, Lost, Failing} ==> o in Pages(s.io, {InFlight, Lost, Failing});
    }
  }

  lemma CommitLastInv(s: State, step: Step)
    requires Inv(s) && step.CommitLast? && Enabled(s, step)
    ensures Inv(Apply(s, step))
  {}

  lemma FlushKeepsMedium(m: Medium, cache: map<nat, Block>)
    requires MediumInv(m) && CacheInv(m, cache)
    ensures MediumInv(m.(disk := FlushCache(m.disk, cache)))
  {
    SpareWritesKeepMedium(m, FlushCache(m.disk, cache));
  }

  lemma FlushedBlocks(s: State)
    requires Inv(s) && s.phase == Barrier
    ensures StoredButLast(FlushCache(s.medium.disk, s.cache), Target(s), s.image, s.last)
  {
    forall o | o in s.image && o != s.last
      ensures ReadBlock(FlushCache(s.medium.disk, s.cache), Target(s) + o) == s.image[o]
    {
      assert s.io[o] == Done;
    }
  }

  lemma FlushInv(s: State, step: Step)
    requires Inv(s) && step.Flush? && Enabled(s, step)
    ensures Inv(Apply(s, step))
  {
    var s' := Apply(s, step);
    assert MediumInv(s'.medium) by { FlushKeepsMedium(s.medium, s.cache); }
    assert AttemptInv(s');
    assert LastInv(s') by { FlushedBlocks(s); }
  }

  lemma PersistInv(s: State, step: Step)
    requires Inv(s) && step.Persist? && Enabled(s, step)
    ensures Inv(Apply(s, step))
  {
    SpareWritesKeepMedium(s.medium, Apply(s, step).medium.disk);
  }

  lemma RewriteCommittedLast(m: Medium)
    requires MediumInv(m)
    ensures m.last in m.image && WriteBlock(m.disk, Start(m.bps, m.pack) + m.last, m.image[m.last]) == m.disk
  {
    assert m.disk[Start(m.bps, m.pack) + m.last] == m.image[m.last];
  }

  lemma PersistLastMedium(s: State)
    requires Inv(s) && s.phase == LastInFlight
    ensures MediumInv(Apply(s, PersistLast).medium)
  {
    hide MediumInv, StoredButLast, WriteBlock;
    if NotYetCommitted(s) {
      LastBlockCommits(s.medium, s.image, s.last);
    } else {
      RewriteCommittedLast(s.medium);
    }
  }

  lemma PersistLastInv(s: State, step: Step)
    requires Inv(s) && step.PersistLast? && Enabled(s, step)
    ensures Inv(Apply(s, step))
  {
    hide MediumInv;
    PersistLastMedium(s);
    assert LastInv(Apply(s, step));
  }

  lemma CompleteLastInv(s: State, step: Step)
    requires Inv(s) && step.CompleteLast? && Enabled(s, step)
    ensures Inv(Apply(s, step))
  {}

  lemma PowerCutInv(s: State, step: Step)
    requires Inv(s) && step.PowerCut? && Enabled(s, step)
    ensures Inv(Apply(s, step))
  {}

  lemma UnmountInv(s: State, step: Step)
    requires Inv(s) && step.Unmount? && Enabled(s, step)
    ensures Inv(Apply(s, step))
  {}

  /**
   A mount always succeeds and changes neither the medium nor the device cache.  It resumes, without error,
   from the committed checkpoint, or from the torn attempt if that one is taken for it.
   */
  lemma MountLands(s: State)
    requires Inv(s) && s.phase == Down
    ensures
      var s', torn := Apply(s, Mount), Aliased(Seen(s));
      && s'.phase == Idle && !s'.error && s'.io == map[]
      && s'.medium == s.medium && s'.cache == s.cache
      && s'.curPack == (if torn then OtherPack(s.medium.pack) else s.medium.pack) && s'.curPack in {1, 2}
      && s'.serial == Serial(s.medium.image) + (if torn then 1 else 0)
  {
    hide FlushCache, CacheInv;
    FlushKeepsMedium(s.medium, s.cache);
    MountSelectsCommitted(Seen(s));
  }

  lemma MountInv(s: State, step: Step)
    requires Inv(s) && step.Mount? && Enabled(s, step) && !Aliased(Seen(s))
    ensures Inv(Apply(s, step))
  {
    hide MediumInv, CacheInv, Aliased, GetValidCheckpoint;
    MountLands(s);
  }

  lemma StepInv(s: State, step: Step)
    requires Inv(s) && Enabled(s, step) && (step.Mount? ==> !Aliased(Seen(s)))
    ensures Inv(Apply(s, step))
  {
    match step
    case Begin(_, _) => BeginInv(s, step);
    case Submit(_, _) => SubmitInv(s, step);
    case Complete(_) => CompleteInv(s, step);
    case RaiseError(_) => RaiseErrorInv(s, step);
    case DropFailed(_) => DropFailedInv(s, step);
    case OtherError => OtherErrorInv(s, step);
    case WaitDirty => WaitDirtyInv(s, step);
    case WaitWriteback => WaitWritebackInv(s, step);
    case CommitLast => CommitLastInv(s, step);
    case Flush => FlushInv(s, step);
    case Persist(_) => PersistInv(s, step);
    case PersistLast => PersistLastInv(s, step);
    case CompleteLast(_) => CompleteLastInv(s, step);
    case PowerCut => PowerCutInv(s, step);
    case Unmount => UnmountInv(s, step);
    case Mount => MountInv(s, step);
  }

  // ----- whole runs

  ghost predicate ValidRun(s: State, steps: seq<Step>)
    decreases |steps|
  {
    steps == [] || (Enabled(s, steps[0]) && ValidRun(Apply(s, steps[0]), steps[1..]))
  }

  ghost function Final(s: State, steps: seq<Step>): State
    requires ValidRun(s, steps)
    decreases |steps|
  {
    if steps == [] then s else Final(Apply(s, steps[0]), steps[1..])
  }

  /** No mount of the run meets an aliased segment. */
  ghost predicate CleanMounts(s: State, steps: seq<Step>)
    requires ValidRun(s, steps)
    decreases |steps|
  {
    steps != [] ==> (steps[0].Mount? ==> !Aliased(Seen(s))) && CleanMounts(Apply(s, steps[0]), steps[1..])
  }

  lemma {:induction false} RunInv(s: State, steps: seq<Step>)
    requires Inv(s) && ValidRun(s, steps) && CleanMounts(s, steps)
    ensures Inv(Final(s, steps))
    decreases |steps|
  {
    if steps != [] {
      StepInv(s, steps[0]);
      RunInv(Apply(s, steps[0]), steps[1..]);
    }
  }

  /**
   After any run of checkpoints, write failures, power cuts, unmounts and remounts, the segment of the
   newest attempt whose last block reached the medium holds all blocks of that attempt and no other.  The
   next mount, after a power cut or without one, selects it if and only if the other segment is not aliased.
   */
  lemma CrashAtomicity(s: State, steps: seq<Step>)
    requires Init(s) && ValidRun(s, steps) && CleanMounts(s, steps)
    ensures
      var f := Final(s, steps);
      var m := f.medium;
      && 0 in m.image
      && Stored(m.disk, Start(m.bps, m.pack), m.image) && Stored(Seen(f).disk, Start(m.bps, m.pack), m.image)
      && (GetValidCheckpoint(m.disk, m.bps) == Selected(m.pack, m.image[0]) <==> !Aliased(m))
      && (GetValidCheckpoint(Seen(f).disk, m.bps) == Selected(m.pack, m.image[0]) <==> !Aliased(Seen(f)))
  {
    InitInv(s);
    RunInv(s, steps);
    var f := Final(s, steps);
    MountSelectsCommitted(f.medium);
    FlushKeepsMedium(f.medium, f.cache);
    MountSelectsCommitted(Seen(f));
  }

  // ----- runs short of the wrap-around

  /** Checkpoints started by the run. */
  function Attempts(steps: seq<Step>): nat {
    if steps == [] then 0 else (if steps[0].Begin? then 1 else 0) + Attempts(steps[1..])
  }

  /** The newest serial that is committed or being written. */
  ghost function Newest(s: State): nat {
    Serial(s.medium.image) +
      if s.phase in {Writing, Drained, Waited, Barrier, LastInFlight} && NotYetCommitted(s) then 1 else 0
  }

  lemma NewestStep(s: State, step: Step)
    requires Inv(s) && Enabled(s, step)
    ensures Newest(Apply(s, step)) <= Newest(s) + if step.Begin? then 1 else 0
    ensures Apply(s, step).medium.origin == s.medium.origin
  {
    hide MediumInv, CacheInv, SubmittedInv, GateInv, WriteBlock, FlushCache, GetValidCheckpoint;
    if step.PersistLast? {
      assert s.image[0].Header?;
    }
  }

  lemma {:induction false} FewAttempts(s: State, steps: seq<Step>)
    requires Inv(s) && ValidRun(s, steps)
    requires Newest(s) + Attempts(steps) + 1 < s.medium.origin + VERSION_SPAN
    ensures CleanMounts(s, steps) && !Aliased(Final(s, steps).medium) && !Aliased(Seen(Final(s, steps)))
    decreases |steps|
  {
    hide MediumInv, CacheInv, GateInv, Aliased, Apply;
    NotAliasedHere(s);
    if steps != [] {
      NewestStep(s, steps[0]);
      StepInv(s, steps[0]);
      FewAttempts(Apply(s, steps[0]), steps[1..]);
    }
  }

  lemma NotAliasedHere(s: State)
    requires Inv(s) && Newest(s) + 1 < s.medium.origin + VERSION_SPAN
    ensures !Aliased(s.medium) && !Aliased(Seen(s))
  {
    FlushKeepsMedium(s.medium, s.cache);
    NotAliasedBelowWrap(s.medium);
    NotAliasedBelowWrap(Seen(s));
  }

  /** With fewer than 2^64 - 1 checkpoints since mkfs every mount of every run selects the committed pack. */
  lemma CrashAtomicityBelowWrap(s: State, steps: seq<Step>)
    requires Init(s) && ValidRun(s, steps) && Attempts(steps) + 1 < VERSION_SPAN
    ensures
      var f := Final(s, steps);
      && CleanMounts(s, steps) && 0 in f.medium.image
      && GetValidCheckpoint(f.medium.disk, f.medium.bps) == Selected(f.medium.pack, f.medium.image[0])
      && GetValidCheckpoint(Seen(f).disk, f.medium.bps) == Selected(f.medium.pack, f.medium.image[0])
  {
    InitInv(s);
    FewAttempts(s, steps);
    CrashAtomicity(s, steps);
  }

  /** The last block is issued only when every other block of the pack completed without error. */
  lemma LastBlockGated(s: State, steps: seq<Step>)
    requires Init(s) && ValidRun(s, steps) && CleanMounts(s, steps)
    requires Final(s, steps).phase == Waited
    requires Apply(Final(s, steps), CommitLast).phase == Barrier
    ensures
      var f := Final(s, steps);
      forall o :: o in f.image && o != f.last ==> InIo(f, o, Done) && Target(f) + o in f.cache
  {
    hide Inv, Init, ValidRun, CleanMounts, Final;
    InitInv(s);
    RunInv(s, steps);
    GatedHere(Final(s, steps));
  }

  lemma GatedHere(s: State)
    requires Inv(s) && s.phase == Waited && !s.error
    ensures forall o :: o in s.image && o != s.last ==> InIo(s, o, Done) && Target(s) + o in s.cache
  {
    hide MediumInv, CacheInv;
  }

  /**
   The error flag is sticky: only a mount clears it.  Until then no page is submitted, no checkpoint begins and
   no last block is issued, so the committed checkpoint stays the one mount selects.
   */
  lemma ErrorIsSticky(s: State, step: Step)
    requires Inv(s) && s.error && Enabled(s, step) && !step.Mount?
    ensures Apply(s, step).error && !step.Begin? && !step.Submit?
    // commit_checkpoint is refused, and the pack index flips all the same
    ensures step.CommitLast? ==> Apply(s, step) == s.(phase := Idle, curPack := if s.curPack == 1 then 2 else 1)
    ensures Apply(s, step).phase == Barrier ==> s.phase == Barrier
    ensures s.phase != LastInFlight ==>
      Apply(s, step).medium.image == s.medium.image && Apply(s, step).medium.pack == s.medium.pack
  {
    hide MediumInv, CacheInv, SubmittedInv, GateInv, WriteBlock, FlushCache;
  }

  /** The selected pack only ever moves forward, one checkpoint at a time. */
  lemma StepIsMonotone(s: State, step: Step)
    requires Inv(s) && Enabled(s, step)
    ensures
      var m, m' := s.medium, Apply(s, step).medium;
      && Serial(m.image) <= Serial(m'.image) <= Serial(m.image) + 1
      && (Serial(m.image) == Serial(m'.image) ==> m.image == m'.image && m.pack == m'.pack)
  {
    hide MediumInv, CacheInv, SubmittedInv, GateInv, GetValidCheckpoint;
    if step.PersistLast? {
      assert s.image[0].Header?;
    }
  }

  lemma {:induction false} RunIsMonotone(s: State, steps: seq<Step>)
    requires Inv(s) && ValidRun(s, steps) && CleanMounts(s, steps)
    ensures
      var m, m' := s.medium, Final(s, steps).medium;
      && Serial(m.image) <= Serial(m'.image)
      && (Serial(m.image) == Serial(m'.image) ==> m.image == m'.image && m.pack == m'.pack)
    decreases |steps|
  {
    if steps != [] {
      StepIsMonotone(s, steps[0]);
      StepInv(s, steps[0]);
      RunIsMonotone(Apply(s, steps[0]), steps[1..]);
    }
  }

  /**
   A checkpoint that reported success is what mount selects after any later crash or unmount, until a
   newer one takes its place.
   */
  lemma ReportedCheckpointSurvives(s: State, before: seq<Step>, after: seq<Step>)
    requires Init(s) && ValidRun(s, before) && CleanMounts(s, before)
    requires Enabled(Final(s, before), CompleteLast(true))
    requires ValidRun(Apply(Final(s, before), CompleteLast(true)), after)
    requires CleanMounts(Apply(Final(s, before), CompleteLast(true)), after)
    ensures
      var p := Final(s, before);
      var f := Final(Apply(p, CompleteLast(true)), after);
      var m := f.medium;
      && (!Aliased(m) ==> GetValidCheckpoint(m.disk, m.bps) == Selected(m.pack, BlockOf(m.image, 0)))
      && (!Aliased(Seen(f)) ==> GetValidCheckpoint(Seen(f).disk, m.bps) == Selected(m.pack, BlockOf(m.image, 0)))
      && p.serial <= Serial(m.image)
      && (p.serial == Serial(m.image) ==> m.image == p.image)
  {
    InitInv(s);
    RunInv(s, before);
    var p := Final(s, before);
    StepInv(p, CompleteLast(true));
    var q := Apply(p, CompleteLast(true));
    RunInv(q, after);
    RunIsMonotone(q, after);
    var f := Final(q, after);
    MountSelectsCommitted(f.medium);
    FlushKeepsMedium(f.medium, f.cache);
    MountSelectsCommitted(Seen(f));
    assert p.image[0].Header?;
  }

  /**
   From 2^64 checkpoints on the condition can fail: a medium that meets the invariant, with a torn attempt
   whose last block is exactly 2^64 checkpoints old.  Mount takes a pack written by two checkpoints.
   */
  lemma WrapAroundAcceptsTornPack(g: nat, origin: nat)
    requires origin + VERSION_SPAN <= g + 1
    ensures
      var committed := Header(g, 2, 0);
      var torn := [Header(g + 1, 3, 1), Raw(0), Header(g + 1 - VERSION_SPAN, 3, 7)];
      var m := Medium(3, origin, [committed, committed, Raw(0)] + torn, 1, map[0 := committed, 1 := committed], 1);
      MediumInv(m) && Aliased(m) && GetValidCheckpoint(m.disk, m.bps) == Selected(2, torn[0])
  {
    var committed := Header(g, 2, 0);
    var torn := [Header(g + 1, 3, 1), Raw(0), Header(g + 1 - VERSION_SPAN, 3, 7)];
    var m := Medium(3, origin, [committed, committed, Raw(0)] + torn, 1, map[0 := committed, 1 := committed], 1);
    assert (g + 1) % VERSION_SPAN == (g + 1 - VERSION_SPAN) % VERSION_SPAN;
    assert m.disk[3] == torn[0] && m.disk[5] == torn[2] && m.disk[4] == torn[1];
    MountSelectsCommitted(m);
  }

  // ----- the wrap-around is reached

  /** A run from s to s' whose mounts are clean. */
  ghost predicate Leads(s: State, steps: seq<Step>, s': State) {
    ValidRun(s, steps) && CleanMounts(s, steps) && Final(s, steps) == s'
  }

  lemma {:induction false} OneMore(s: State, steps: seq<Step>, cur: State, step: Step)
    requires Leads(s, steps, cur) && Enabled(cur, step) && (step.Mount? ==> !Aliased(Seen(cur)))
    ensures Leads(s, steps + [step], Apply(cur, step))
    decreases |steps|
  {
    hide Enabled, Apply, Aliased;
    var more := steps + [step];
    if steps == [] {
      var next := Apply(s, step);
      assert more[0] == step && more[1..] == [];
      assert ValidRun(next, more[1..]) && CleanMounts(next, more[1..]) && Final(next, more[1..]) == next;
    } else {
      assert more[1..] == steps[1..] + [step] && more[0] == steps[0];
      OneMore(Apply(s, steps[0]), steps[1..], cur, step);
    }
  }

  /** Mounted and at rest, with checkpoint k in `pack` and block `tail` at the end of the second segment. */
  ghost predicate Settled(s: State, origin: nat, k: nat, pack: nat, tail: Block) {
    && s.phase == Idle && !s.error && s.cache == map[]
    && s.curPack == s.medium.pack == pack && pack in {1, 2}
    && s.serial == Serial(s.medium.image) == k
    && s.medium.origin == origin && s.medium.bps == 3 && |s.medium.disk| == 6 && s.medium.disk[5] == tail
  }

  /** A checkpoint of two or three blocks. */
  function SmallImage(serial: nat, last: nat): Image {
    var h := Header(serial, last + 1, 0);
    if last == 1 then map[0 := h, 1 := h] else map[0 := h, 1 := Raw(0), 2 := h]
  }

  /** Once every page of an attempt is in the cache and completed, the rest of do_checkpoint commits it. */
  lemma Committed(start: State, steps: seq<Step>, s: State) returns (steps': seq<Step>, s': State)
    requires Leads(start, steps, s) && s.phase == Writing && !s.error
    requires forall o :: o in s.io ==> s.io[o] == Done
    ensures Leads(start, steps', s')
    ensures
      var m := s.medium;
      && s'.phase == Idle && !s'.error && s'.cache == map[] && s'.curPack == OtherPack(s.curPack) &&
        s'.serial == s.serial
      && s'.medium == m.(disk := WriteBlock(FlushCache(m.disk, s.cache), Target(s) + s.last, BlockOf(s.image, s.last)),
                         pack := OtherPack(s.curPack), image := s.image, last := s.last)
  {
    hide ValidRun, CleanMounts, Final, Leads, WriteBlock, FlushCache;
    assert Pages(s.io, {Dirty}) == {} && Pages(s.io, {InFlight, Lost, Failing}) == {};
    steps', s' := steps, s;
    OneMore(start, steps', s', WaitDirty);
    steps', s' := steps' + [WaitDirty], Apply(s', WaitDirty);
    OneMore(start, steps', s', WaitWriteback);
    steps', s' := steps' + [WaitWriteback], Apply(s', WaitWriteback);
    OneMore(start, steps', s', CommitLast);
    steps', s' := steps' + [CommitLast], Apply(s', CommitLast);
    OneMore(start, steps', s', Flush);
    steps', s' := steps' + [Flush], Apply(s', Flush);
    OneMore(start, steps', s', PersistLast);
    steps', s' := steps' + [PersistLast], Apply(s', PersistLast);
    OneMore(start, steps', s', CompleteLast(true));
    steps', s' := steps' + [CompleteLast(true)], Apply(s', CompleteLast(true));
  }

  /** Page o is submitted and completes. */
  lemma PageDone(start: State, steps: seq<Step>, s: State, o: nat) returns (steps': seq<Step>, s': State)
    requires Leads(start, steps, s) && s.phase == Writing && !s.error && InIo(s, o, Dirty)
    ensures Leads(start, steps', s')
    ensures s' == s.(io := s.io[o := Done], cache := s.cache[Target(s) + o := BlockOf(s.image, o)])
  {
    hide ValidRun, CleanMounts, Final, Leads;
    steps', s' := steps, s;
    OneMore(start, steps', s', Submit(o, Held));
    steps', s' := steps' + [Submit(o, Held)], Apply(s', Submit(o, Held));
    OneMore(start, steps', s', Complete(o));
    steps', s' := steps' + [Complete(o)], Apply(s', Complete(o));
    assert s.io[o := InFlight][o := Done] == s.io[o := Done];
  }

  lemma Begun(start: State, steps: seq<Step>, s: State, last: nat) returns (steps': seq<Step>, s': State)
    requires Leads(start, steps, s) && s.phase == Idle && !s.error && s.medium.bps == 3 && 1 <= last <= 2
    ensures Leads(start, steps', s')
    ensures s' == s.(phase := Writing, serial := s.serial + 1, image := SmallImage(s.serial + 1, last), last := last,
                     io := if last == 1 then map[0 := Dirty] else map[0 := Dirty, 1 := Dirty])
  {
    hide ValidRun, CleanMounts, Final, Leads;
    var image := SmallImage(s.serial + 1, last);
    var step := Begin(image, last);
    OneMore(start, steps, s, step);
    steps', s' := steps + [step], Apply(s, step);
    assert (map o | o in image && o != last :: Dirty) ==
      if last == 1 then map[0 := Dirty] else map[0 := Dirty, 1 := Dirty];
  }

  /** One checkpoint of two blocks: the end of the second segment stays. */
  lemma ShortCheckpoint(start: State, steps: seq<Step>, s: State, origin: nat, k: nat, pack: nat, tail: Block)
    returns (steps': seq<Step>, s': State)
    requires Leads(start, steps, s) && Settled(s, origin, k, pack, tail)
    ensures Leads(start, steps', s') && Settled(s', origin, k + 1, OtherPack(pack), tail)
  {
    hide Leads;
    steps', s' := Begun(start, steps, s, 1);
    steps', s' := PageDone(start, steps', s', 0);
    steps', s' := Committed(start, steps', s');
  }

  /** One checkpoint of three blocks into the second segment: its last block ends up there. */
  lemma LongCheckpoint(start: State, steps: seq<Step>, s: State, origin: nat, k: nat, tail: Block)
    returns (steps': seq<Step>, s': State)
    requires Leads(start, steps, s) && Settled(s, origin, k, 1, tail)
    ensures Leads(start, steps', s') && Settled(s', origin, k + 1, 2, Header(k + 1, 3, 0))
  {
    hide Leads;
    steps', s' := Begun(start, steps, s, 2);
    steps', s' := PageDone(start, steps', s', 0);
    steps', s' := PageDone(start, steps', s', 1);
    steps', s' := Committed(start, steps', s');
  }

  /** The dirty pages of an attempt can all be written. */
  lemma {:induction false} PagesDone(start: State, steps: seq<Step>, s: State) returns (steps': seq<Step>, s': State)
    requires Leads(start, steps, s) && s.phase == Writing && !s.error
    requires forall o :: o in s.io ==> s.io[o] in {Dirty, Done}
    ensures Leads(start, steps', s') && s'.phase == Writing && !s'.error
    ensures forall o :: o in s'.io ==> s'.io[o] == Done
    ensures s'.curPack == s.curPack && s'.serial == s.serial && s'.image == s.image && s'.last == s.last
    ensures s'.medium == s.medium
    decreases |Pages(s.io, {Dirty})|
  {
    hide Leads;
    steps', s' := steps, s;
    if o :| o in s.io && s.io[o] == Dirty {
      steps', s' := PageDone(start, steps, s, o);
      assert Pages(s'.io, {Dirty}) == Pages(s.io, {Dirty}) - {o};
      assert o in Pages(s.io, {Dirty});
      steps', s' := PagesDone(start, steps', s');
    }
  }

  /**
   No run gets stuck: short of the wrap-around, wherever a run left the file system down, it can be mounted
   again, and any checkpoint of the next version can be begun and carried through.
   */
  lemma CanGoOn(s: State, steps: seq<Step>, image: Image, last: nat) returns (more: seq<Step>, s': State)
    requires Init(s) && ValidRun(s, steps) && Attempts(steps) + 1 < VERSION_SPAN
    requires Final(s, steps).phase == Down
    requires var m := Final(s, steps).medium; WellFormedImage(image, m.bps, Serial(m.image) + 1, last)
    ensures Leads(Final(s, steps), more, s') && s'.phase == Idle && !s'.error
    ensures
      var m, m' := Final(s, steps).medium, s'.medium;
      && s'.curPack == m'.pack == OtherPack(m.pack)
      && m'.image == image && m'.last == last && s'.serial == Serial(m.image) + 1
  {
    hide WellFormedImage, MediumInv, CacheInv, Aliased, GetValidCheckpoint, Leads, WriteBlock, FlushCache;
    var f := Final(s, steps);
    InitInv(s);
    FreshIsOrigin(s);
    FewAttempts(s, steps);
    RunInv(s, steps);
    MountLands(f);
    more, s' := [], f;
    NoStep(f);
    OneMore(f, more, s', Mount);
    more, s' := more + [Mount], Apply(f, Mount);
    OneMore(f, more, s', Begin(image, last));
    more, s' := more + [Begin(image, last)], Apply(s', Begin(image, last));
    more, s' := PagesDone(f, more, s');
    more, s' := Committed(f, more, s');
  }

  lemma FreshIsOrigin(s: State)
    requires Init(s)
    ensures Newest(s) == s.medium.origin
  {
  }

  lemma NoStep(s: State)
    ensures Leads(s, [], s)
  {
  }

  /** Any number of short checkpoints, back and forth. */
  lemma {:induction false} ManyCheckpoints(start: State, steps: seq<Step>, s: State, origin: nat, k: nat, tail: Block,
                                           n: nat)
    returns (steps': seq<Step>, s': State)
    requires Leads(start, steps, s) && Settled(s, origin, k, 2, tail)
    ensures Leads(start, steps', s') && Settled(s', origin, k + 2 * n + 1, 1, tail)
    decreases n
  {
    hide Leads, Settled;
    if n == 0 {
      steps', s' := ShortCheckpoint(start, steps, s, origin, k, 2, tail);
    } else {
      steps', s' := ManyCheckpoints(start, steps, s, origin, k, tail, n - 1);
      steps', s' := ShortCheckpoint(start, steps', s', origin, k + 2 * n - 1, 1, tail);
      steps', s' := ShortCheckpoint(start, steps', s', origin, k + 2 * n, 2, tail);
    }
  }

  /** A fresh file system of two small segments. */
  function Fresh(origin: nat): State {
    var h := Header(origin, 2, 0);
    State(Medium(3, origin, [h, h, Raw(0), Raw(0), Raw(0), Raw(0)], 1, map[0 := h, 1 := h], 1),
          map[], Down, false, 1, 0, map[], 0, map[])
  }

  /**
   The condition of CrashAtomicity does fail on a run: a three-block checkpoint, short ones until its serial
   comes round, and a power cut while a three-block checkpoint is written.  The next mount takes the torn pack.
   */
  lemma WrapAroundIsReached(origin: nat) returns (steps: seq<Step>)
    ensures
      var s := Fresh(origin);
      && Init(s) && ValidRun(s, steps) && CleanMounts(s, steps)
      && var m := Final(s, steps).medium;
         Aliased(m) && GetValidCheckpoint(m.disk, m.bps) == Selected(OtherPack(m.pack), ReadBlock(m.disk, Spare(m)))
  {
    var s := Fresh(origin);
    assert Init(s);
    InitInv(s);
    FreshMount(origin);
    var cur := Apply(s, Mount);
    steps := [Mount];
    assert Leads(s, steps, cur);
    hide Leads, Settled, MediumInv, CacheInv, Inv;
    steps, cur := LongCheckpoint(s, steps, cur, origin, origin, Raw(0));
    steps, cur := ManyCheckpoints(s, steps, cur, origin, origin + 1, Header(origin + 1, 3, 0), VERSION_SPAN / 2 - 1);
    steps, cur := Torn(s, steps, cur, origin);
    RunEnds(s, steps, cur);
  }

  lemma FreshMount(origin: nat)
    ensures
      var s := Fresh(origin);
      && !Aliased(Seen(s)) && Enabled(s, Mount)
      && Settled(Apply(s, Mount), origin, origin, 1, Raw(0))
  {
    var s := Fresh(origin);
    assert Seen(s).disk == s.medium.disk;
    InitInv(s);
    MountSelectsCommitted(s.medium);
  }

  /** The torn attempt: its first block reaches the medium, the power fails. */
  lemma Torn(start: State, steps: seq<Step>, s: State, origin: nat) returns (steps': seq<Step>, s': State)
    requires Leads(start, steps, s) && Settled(s, origin, origin + VERSION_SPAN, 1, Header(origin + 1, 3, 0))
    ensures Leads(start, steps', s') && Aliased(s'.medium)
  {
    hide ValidRun, CleanMounts, Final, Leads;
    steps', s' := Begun(start, steps, s, 2);
    steps', s' := PageDone(start, steps', s', 0);
    OneMore(start, steps', s', Persist(3));
    steps', s' := steps' + [Persist(3)], Apply(s', Persist(3));
    OneMore(start, steps', s', PowerCut);
    steps', s' := steps' + [PowerCut], Apply(s', PowerCut);
    assert s'.medium.disk[3] == Header(origin + VERSION_SPAN + 1, 3, 0) &&
      s'.medium.disk[5] == Header(origin + 1, 3, 0);
    assert (origin + VERSION_SPAN + 1) % VERSION_SPAN == (origin + 1) % VERSION_SPAN;
  }

  lemma RunEnds(s: State, steps: seq<Step>, s': State)
    requires Inv(s) && Leads(s, steps, s') && Aliased(s'.medium)
    ensures ValidRun(s, steps) && CleanMounts(s, steps) && Final(s, steps) == s'
    ensures GetValidCheckpoint(s'.medium.disk, s'.medium.bps) ==
      Selected(OtherPack(s'.medium.pack), ReadBlock(s'.medium.disk, Spare(s'.medium)))
  {
    RunInv(s, steps);
    MountSelectsCommitted(s'.medium);
  }
}
