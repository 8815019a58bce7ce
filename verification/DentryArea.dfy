/**
 One dentry area: a bitmap, a dentry per slot and a name buffer.  A directory block is one, and
 so is the area inside an inode that holds an inline directory.

 An entry takes consecutive slots, as many as its name needs; its record is in the first of them
 and the records of the others have a zero name length.
 */
module DentryArea {
  import opened Prelude

  /** F2FS_SLOT_LEN: bytes of name per slot. */
  const SLOT_LEN: nat := 8

  /** F2FS_NAME_LEN. */
  const NAME_LEN: nat := 255

  /** struct f2fs_dir_entry. */
  datatype Dentry = Dentry(hash: nat, nameLen: nat, ino: nat, ftype: nat)

  datatype Area = Area(bitmap: seq<bool>, dentry: seq<Dentry>, filename: string)

  /** A name with its hash, as struct f2fs_filename carries it. */
  datatype FileName = FileName(name: string, hash: nat)

  /** GET_DENTRY_SLOTS. */
  function Slots(len: nat): nat {
    (len + SLOT_LEN - 1) / SLOT_LEN
  }

  lemma SlotsFit(len: nat)
    ensures len <= SLOT_LEN * Slots(len) < len + SLOT_LEN
    ensures len > 0 ==> Slots(len) > 0
  {
  }

  ghost predicate Shaped(a: Area) {
    |a.dentry| == |a.bitmap| && |a.filename| == SLOT_LEN * |a.bitmap|
  }

  /** A slot that starts an entry. */
  predicate Head(a: Area, h: nat) {
    h < |a.bitmap| && h < |a.dentry| && a.bitmap[h] && a.dentry[h].nameLen > 0
  }

  function RunEnd(a: Area, h: nat): nat
    requires h < |a.dentry|
  {
    h + Slots(a.dentry[h].nameLen)
  }

  /** Slot i belongs to the entry that starts at h. */
  predicate InRun(a: Area, h: nat, i: nat) {
    Head(a, h) && h <= i < RunEnd(a, h)
  }

  /** An entry's slots are marked and only the first has a name length. */
  ghost predicate RunsOk(a: Area) {
    && (forall h: nat :: Head(a, h) ==> RunEnd(a, h) <= |a.bitmap| && a.dentry[h].nameLen <= NAME_LEN)
    && (forall h: nat, i: nat :: InRun(a, h, i) && h != i ==>
        i < |a.bitmap| && i < |a.dentry| && a.bitmap[i] && a.dentry[i].nameLen == 0)
  }

  /** Every marked slot belongs to an entry. */
  ghost predicate Owned(a: Area) {
    forall i: nat :: i < |a.bitmap| && a.bitmap[i] ==> exists h: nat :: InRun(a, h, i)
  }

  ghost predicate WellFormed(a: Area) {
    Shaped(a) && RunsOk(a) && Owned(a)
  }

  /** The name stored for the entry at h. */
  function NameAt(a: Area, h: nat): string
    requires h < |a.dentry|
  {
    var from, to := SLOT_LEN * h, SLOT_LEN * h + a.dentry[h].nameLen;
    if to <= |a.filename| then a.filename[from..to] else ""
  }

  /** No entry reaches across p: a walk may stand there. */
  ghost predicate Boundary(a: Area, p: nat) {
    forall h: nat :: Head(a, h) && h < p ==> RunEnd(a, h) <= p
  }

  lemma StepRun(a: Area, p: nat)
    requires WellFormed(a) && Boundary(a, p) && p < |a.bitmap|
    ensures !a.bitmap[p] ==> Boundary(a, p + 1)
    ensures a.bitmap[p] ==> Head(a, p) && p < RunEnd(a, p) <= |a.bitmap| && Boundary(a, RunEnd(a, p))
    ensures a.bitmap[p] ==> forall h: nat :: p < h < RunEnd(a, p) ==> !Head(a, h)
  {
    hide Slots;
    if a.bitmap[p] {
      var h: nat :| InRun(a, h, p);
      assert h == p;
      SlotsFit(a.dentry[p].nameLen);
      forall g: nat | p < g < RunEnd(a, p) ensures !Head(a, g) {
        assert InRun(a, p, g);
      }
    }
  }

  // ----- free space

  ghost predicate FreeRun(bitmap: seq<bool>, p: nat, n: nat) {
    p + n <= |bitmap| && forall i :: p <= i < p + n ==> !bitmap[i]
  }

  /** There is room for n consecutive slots below `limit`. */
  ghost predicate HasRoom(bitmap: seq<bool>, n: nat, limit: nat) {
    exists p: nat :: FreeRun(bitmap, p, n) && p + n <= limit
  }

  /** The first slot from `from` on whose bit is `value`, or the size of the bitmap. */
  function NextBit(bitmap: seq<bool>, value: bool, from: nat): (r: nat)
    requires from <= |bitmap|
    ensures from <= r <= |bitmap|
    ensures forall i :: from <= i < r ==> bitmap[i] != value
    ensures r < |bitmap| ==> bitmap[r] == value
    decreases |bitmap| - from
  {
    if from == |bitmap| || bitmap[from] == value then from else NextBit(bitmap, value, from + 1)
  }

  /** f2fs_room_for_filename: the first free run that is long enough, or the size of the area. */
  method RoomForFilename(bitmap: seq<bool>, slots: nat) returns (pos: nat)
    requires slots > 0
    ensures pos <= |bitmap|
    ensures pos < |bitmap| <==> HasRoom(bitmap, slots, |bitmap|)
    ensures pos < |bitmap| ==> FreeRun(bitmap, pos, slots) && forall p: nat :: p < pos ==> !FreeRun(bitmap, p, slots)
  {
    var bitStart := 0;
    while true
      invariant bitStart <= |bitmap|
      invariant forall p: nat :: p < bitStart ==> !FreeRun(bitmap, p, slots)
      decreases |bitmap| - bitStart
    {
      var zeroStart := NextBit(bitmap, false, bitStart);
      if zeroStart >= |bitmap| {
        NoRoomFrom(bitmap, slots, bitStart);
        return |bitmap|;
      }
      forall p: nat | bitStart <= p < zeroStart ensures !FreeRun(bitmap, p, slots) {
        assert bitmap[p];
      }
      var zeroEnd := NextBit(bitmap, true, zeroStart);
      if zeroEnd - zeroStart >= slots {
        assert FreeRun(bitmap, zeroStart, slots);
        return zeroStart;
      }
      forall p: nat | zeroStart <= p <= zeroEnd ensures !FreeRun(bitmap, p, slots) {
        assert zeroEnd < |bitmap| ==> bitmap[zeroEnd];
      }
      bitStart := zeroEnd + 1;
      if zeroEnd + 1 >= |bitmap| {
        NoRoomFrom(bitmap, slots, |bitmap|);
        return |bitmap|;
      }
    }
  }

  lemma NoRoomFrom(bitmap: seq<bool>, slots: nat, from: nat)
    requires slots > 0 && from <= |bitmap|
    requires forall p: nat :: p < from ==> !FreeRun(bitmap, p, slots)
    requires forall i :: from <= i < |bitmap| ==> bitmap[i]
    ensures !HasRoom(bitmap, slots, |bitmap|)
  {
    forall p: nat ensures !(FreeRun(bitmap, p, slots) && p + slots <= |bitmap|) {
      if p >= from && p + slots <= |bitmap| {
        assert bitmap[p];
      }
    }
  }

  /** `len` is the free run that ends at p, `best` covers the free runs before it. */
  ghost predicate FreeStats(bitmap: seq<bool>, p: nat, len: nat, best: nat) {
    && len <= p <= |bitmap|
    && FreeRun(bitmap, p - len, len)
    && (p > len ==> bitmap[p - len - 1])
    && (forall n: nat :: n > 0 ==> (HasRoom(bitmap, n, p) <==> n <= len || n <= best))
  }

  lemma RunAvoids(bitmap: seq<bool>, q: nat, n: nat, i: nat)
    requires FreeRun(bitmap, q, n) && i < |bitmap|
    ensures bitmap[i] ==> i < q || q + n <= i
  {
  }

  lemma FreeStatsFree(bitmap: seq<bool>, p: nat, len: nat, best: nat)
    requires FreeStats(bitmap, p, len, best) && p < |bitmap| && !bitmap[p]
    ensures FreeStats(bitmap, p + 1, len + 1, best)
  {
    var p' := p + 1;
    forall n: nat | n > 0 ensures HasRoom(bitmap, n, p') <==> n <= len + 1 || n <= best {
      if HasRoom(bitmap, n, p') {
        var q: nat :| FreeRun(bitmap, q, n) && q + n <= p + 1;
        assert q + n <= p ==> HasRoom(bitmap, n, p);
        if p > len {
          RunAvoids(bitmap, q, n, p - len - 1);
        }
      }
      if n <= len + 1 {
        assert FreeRun(bitmap, p + 1 - n, n);
      }
      if n <= best {
        assert HasRoom(bitmap, n, p);
        var q: nat :| FreeRun(bitmap, q, n) && q + n <= p;
        assert FreeRun(bitmap, q, n) && q + n <= p + 1;
      }
    }
  }

  lemma FreeStatsUsed(bitmap: seq<bool>, p: nat, len: nat, best: nat, next: nat)
    requires FreeStats(bitmap, p, len, best) && p < next <= |bitmap|
    requires forall i :: p <= i < next ==> bitmap[i]
    ensures FreeStats(bitmap, next, 0, if len > best then len else best)
  {
    var m := if len > best then len else best;
    forall n: nat | n > 0 ensures HasRoom(bitmap, n, next) <==> n <= m {
      if HasRoom(bitmap, n, next) {
        var q: nat :| FreeRun(bitmap, q, n) && q + n <= next;
        RunAvoids(bitmap, q, n, if q + n > p && q + n <= |bitmap| then q + n - 1 else p);
        assert HasRoom(bitmap, n, p);
      }
      if n <= m {
        assert HasRoom(bitmap, n, p);
        var q: nat :| FreeRun(bitmap, q, n) && q + n <= p;
        assert FreeRun(bitmap, q, n) && q + n <= next;
      }
    }
  }

  predicate Matches(a: Area, h: nat, fname: FileName)
    requires h < |a.dentry|
  {
    a.dentry[h].hash == fname.hash && NameAt(a, h) == fname.name
  }

  /** Nothing before p matches and the free runs before p are accounted for. */
  ghost predicate Searched(a: Area, fname: FileName, p: nat, len: nat, best: nat) {
    && p <= |a.bitmap| && Boundary(a, p)
    && (forall h: nat :: Head(a, h) && h < p ==> !Matches(a, h, fname))
    && FreeStats(a.bitmap, p, len, best)
  }

  lemma SearchFree(a: Area, fname: FileName, p: nat, len: nat, best: nat)
    requires WellFormed(a) && Searched(a, fname, p, len, best) && p < |a.bitmap| && !a.bitmap[p]
    ensures Searched(a, fname, p + 1, len + 1, best)
  {
    hide FreeStats, Slots, WellFormed, Boundary;
    StepRun(a, p);
    FreeStatsFree(a.bitmap, p, len, best);
  }

  lemma SearchEntry(a: Area, fname: FileName, p: nat, len: nat, best: nat)
    requires WellFormed(a) && Searched(a, fname, p, len, best) && p < |a.bitmap| && a.bitmap[p]
    ensures Head(a, p)
    ensures !Matches(a, p, fname) ==> Searched(a, fname, RunEnd(a, p), 0, if len > best then len else best)
  {
    StepRun(a, p);
    RunMarked(a, p);
    hide FreeStats, Slots, WellFormed;
    FreeStatsUsed(a.bitmap, p, len, best, RunEnd(a, p));
  }

  lemma RunMarked(a: Area, h: nat)
    requires WellFormed(a) && Head(a, h)
    ensures RunEnd(a, h) <= |a.bitmap| && forall i :: h <= i < RunEnd(a, h) ==> a.bitmap[i]
  {
    hide Slots;
    forall i | h <= i < RunEnd(a, h) ensures i < |a.bitmap| && a.bitmap[i] {
      assert InRun(a, h, i);
    }
  }

  /** f2fs_find_target_dentry: the matching entry, else the longest free run. */
  method FindTarget(a: Area, fname: FileName) returns (found: Option<nat>, maxSlots: nat)
    requires Shaped(a)
    ensures found.Some? ==> Head(a, found.value) && Matches(a, found.value, fname)
    ensures found.Some? ==> a.dentry[found.value].hash == fname.hash && NameAt(a, found.value) == fname.name
    ensures WellFormed(a) && found.None? ==> forall h: nat :: Head(a, h) ==> !Matches(a, h, fname)
    ensures WellFormed(a) && found.None? ==>
      forall n: nat :: n > 0 ==> (n <= maxSlots <==> HasRoom(a.bitmap, n, |a.bitmap|))
  {
    hide WellFormed, Boundary, Slots, HasRoom, NameAt;
    var bitPos, maxLen := 0, 0;
    maxSlots := 0;
    SearchStart(a, fname);
    while bitPos < |a.bitmap|
      invariant WellFormed(a) ==> Searched(a, fname, bitPos, maxLen, maxSlots)
      invariant 0 <= maxLen && 0 <= bitPos
      decreases |a.bitmap| - bitPos
    {
      if !a.bitmap[bitPos] {
        if WellFormed(a) {
          SearchFree(a, fname, bitPos, maxLen, maxSlots);
        }
        bitPos, maxLen := bitPos + 1, maxLen + 1;
        continue;
      }
      if WellFormed(a) {
        SearchEntry(a, fname, bitPos, maxLen, maxSlots);
      }
      if a.dentry[bitPos].nameLen == 0 {
        bitPos := bitPos + 1;
        continue;
      }
      SlotsFit(a.dentry[bitPos].nameLen);
      if Matches(a, bitPos, fname) {
        maxSlots := if maxLen > maxSlots then maxLen else maxSlots;
        return Some(bitPos), maxSlots;
      }
      maxSlots := if maxLen > maxSlots then maxLen else maxSlots;
      maxLen := 0;
      bitPos := RunEnd(a, bitPos);
    }
    maxSlots := if maxLen > maxSlots then maxLen else maxSlots;
    found := None;
  }

  lemma SearchStart(a: Area, fname: FileName)
    ensures Searched(a, fname, 0, 0, 0)
  {
    forall n: nat | n > 0 ensures !HasRoom(a.bitmap, n, 0) {
    }
  }

  // ----- adding an entry

  function WithEntry(a: Area, pos: nat, fname: FileName, ino: nat, ftype: nat): Area
    requires SLOT_LEN * pos + |fname.name| <= |a.filename|
  {
    var end := pos + Slots(|fname.name|);
    Area(seq(|a.bitmap|, i requires 0 <= i < |a.bitmap| => pos <= i < end || a.bitmap[i]),
         seq(|a.dentry|, i requires 0 <= i < |a.dentry| =>
               if i == pos then Dentry(fname.hash, |fname.name|, ino, ftype)
               else if pos < i < end then a.dentry[i].(nameLen := 0)
               else a.dentry[i]),
         a.filename[..SLOT_LEN * pos] + fname.name + a.filename[SLOT_LEN * pos + |fname.name|..])
  }

  /** f2fs_update_dentry. */
  method UpdateDentry(a: Area, pos: nat, fname: FileName, ino: nat, ftype: nat) returns (r: Area)
    requires Shaped(a) && fname.name != "" && pos + Slots(|fname.name|) <= |a.bitmap|
    ensures SLOT_LEN * pos + |fname.name| <= |a.filename| && r == WithEntry(a, pos, fname, ino, ftype)
  {
    hide Slots;
    SlotsFit(|fname.name|);
    var slots := Slots(|fname.name|);
    var dentry := a.dentry[pos := Dentry(fname.hash, |fname.name|, ino, ftype)];
    var bitmap := a.bitmap;
    for i := 0 to slots
      invariant |bitmap| == |a.bitmap| && |dentry| == |a.dentry|
      invariant forall k :: 0 <= k < |bitmap| ==> bitmap[k] == (pos <= k < pos + i || a.bitmap[k])
      invariant forall k :: 0 <= k < |dentry| ==>
        dentry[k] == (if k == pos then Dentry(fname.hash, |fname.name|, ino, ftype)
                      else if pos < k < pos + i then a.dentry[k].(nameLen := 0)
                      else a.dentry[k])
    {
      bitmap := bitmap[pos + i := true];
      if i > 0 {
        dentry := dentry[pos + i := dentry[pos + i].(nameLen := 0)];
      }
    }
    r := Area(bitmap, dentry, a.filename[..SLOT_LEN * pos] + fname.name + a.filename[SLOT_LEN * pos + |fname.name|..]);
    assert r.bitmap == WithEntry(a, pos, fname, ino, ftype).bitmap;
    assert r.dentry == WithEntry(a, pos, fname, ino, ftype).dentry;
  }

  /** The entries of `a'` are those of `a` and one at `pos`. */
  ghost predicate EntryAdded(a: Area, a': Area, pos: nat, fname: FileName, ino: nat, ftype: nat) {
    && WellFormed(a') && |a'.bitmap| == |a.bitmap|
    && !Head(a, pos) && Head(a', pos)
    && a'.dentry[pos] == Dentry(fname.hash, |fname.name|, ino, ftype) && NameAt(a', pos) == fname.name
    && (forall h: nat :: Head(a', h) <==> Head(a, h) || h == pos)
    && (forall h: nat :: Head(a, h) ==> a'.dentry[h] == a.dentry[h] && NameAt(a', h) == NameAt(a, h))
  }

  lemma FreeNotHead(a: Area, pos: nat, n: nat)
    requires WellFormed(a) && FreeRun(a.bitmap, pos, n) && n > 0
    ensures forall h: nat :: Head(a, h) ==> RunEnd(a, h) <= pos || pos + n <= h
  {
    hide Slots;
    assert !a.bitmap[pos];
    forall h: nat | Head(a, h) ensures RunEnd(a, h) <= pos || pos + n <= h {
      RunMarked(a, h);
    }
  }

  lemma WithEntryHeads(a: Area, pos: nat, fname: FileName, ino: nat, ftype: nat)
    requires WellFormed(a) && 0 < |fname.name| <= NAME_LEN && FreeRun(a.bitmap, pos, Slots(|fname.name|))
    requires SLOT_LEN * pos + |fname.name| <= |a.filename|
    ensures
      var a' := WithEntry(a, pos, fname, ino, ftype);
      && Shaped(a') && !Head(a, pos)
      && (forall h: nat :: Head(a', h) <==> Head(a, h) || h == pos)
      && (forall h: nat :: Head(a, h) ==> a'.dentry[h] == a.dentry[h])
      && (forall h: nat :: Head(a, h) ==> RunEnd(a, h) <= pos || pos + Slots(|fname.name|) <= h)
  {
    SlotsFit(|fname.name|);
    FreeNotHead(a, pos, Slots(|fname.name|));
    hide Slots, WellFormed;
    var a' := WithEntry(a, pos, fname, ino, ftype);
    assert forall i :: pos <= i < pos + Slots(|fname.name|) ==> !a.bitmap[i];
    forall h: nat ensures Head(a', h) <==> Head(a, h) || h == pos {
    }
  }

  /** Names of different entries live in different slots. */
  lemma WithEntryNames(a: Area, pos: nat, fname: FileName, ino: nat, ftype: nat, h: nat)
    requires Shaped(a) && SLOT_LEN * pos + |fname.name| <= |a.filename|
    requires h < |a.dentry| && h != pos
    requires RunEnd(a, h) <= pos || pos + Slots(|fname.name|) <= h
    requires RunEnd(a, h) <= |a.bitmap|
    requires WithEntry(a, pos, fname, ino, ftype).dentry[h] == a.dentry[h]
    ensures NameAt(WithEntry(a, pos, fname, ino, ftype), h) == NameAt(a, h)
  {
    var a' := WithEntry(a, pos, fname, ino, ftype);
    SlotsFit(a.dentry[h].nameLen);
    SlotsFit(|fname.name|);
    var from, to := SLOT_LEN * h, SLOT_LEN * h + a.dentry[h].nameLen;
    assert |a'.filename| == |a.filename|;
    assert to <= SLOT_LEN * pos || SLOT_LEN * pos + |fname.name| <= from;
    assert a'.filename[from..to] == a.filename[from..to];
  }

  lemma WithEntryAdds(a: Area, pos: nat, fname: FileName, ino: nat, ftype: nat)
    requires WellFormed(a) && 0 < |fname.name| <= NAME_LEN && FreeRun(a.bitmap, pos, Slots(|fname.name|))
    requires SLOT_LEN * pos + |fname.name| <= |a.filename|
    ensures EntryAdded(a, WithEntry(a, pos, fname, ino, ftype), pos, fname, ino, ftype)
    // the name starts at the first slot's bytes
    ensures forall k :: 0 <= k < |fname.name| ==>
      WithEntry(a, pos, fname, ino, ftype).filename[8 * pos + k] == fname.name[k]
  {
    var a' := WithEntry(a, pos, fname, ino, ftype);
    WithEntryHeads(a, pos, fname, ino, ftype);
    forall h: nat | Head(a, h) ensures NameAt(a', h) == NameAt(a, h) {
      WithEntryNames(a, pos, fname, ino, ftype, h);
    }
    assert a'.filename[SLOT_LEN * pos..SLOT_LEN * pos + |fname.name|] == fname.name;
    WithEntryWellFormed(a, pos, fname, ino, ftype);
  }

  lemma WithEntryWellFormed(a: Area, pos: nat, fname: FileName, ino: nat, ftype: nat)
    requires WellFormed(a) && 0 < |fname.name| <= NAME_LEN && FreeRun(a.bitmap, pos, Slots(|fname.name|))
    requires SLOT_LEN * pos + |fname.name| <= |a.filename|
    ensures WellFormed(WithEntry(a, pos, fname, ino, ftype))
  {
    hide Slots, NameAt, RunsOk, Owned;
    var a' := WithEntry(a, pos, fname, ino, ftype);
    SlotsFit(|fname.name|);
    WithEntryHeads(a, pos, fname, ino, ftype);
    WithEntryRuns(a, a', pos, pos + Slots(|fname.name|));
    WithEntryOwned(a, a', pos, pos + Slots(|fname.name|));
  }

  /** `a'` marks pos..end and makes pos a head; the other entries keep their records. */
  ghost predicate Extended(a: Area, a': Area, pos: nat, end: nat) {
    && Shaped(a) && Shaped(a') && |a.bitmap| == |a'.bitmap| && pos < end <= |a.bitmap|
    && (forall i :: 0 <= i < |a.bitmap| ==> a'.bitmap[i] == (pos <= i < end || a.bitmap[i]))
    && (forall i :: 0 <= i < |a.bitmap| && !(pos <= i < end) ==> a'.dentry[i] == a.dentry[i])
    && (forall i :: pos < i < end ==> a'.dentry[i].nameLen == 0)
    && (forall h: nat :: Head(a', h) <==> Head(a, h) || h == pos)
    && (forall h: nat :: Head(a, h) ==> RunEnd(a, h) <= pos || end <= h)
    && RunEnd(a', pos) == end && a'.dentry[pos].nameLen <= NAME_LEN
  }

  lemma WithEntryRuns(a: Area, a': Area, pos: nat, end: nat)
    requires RunsOk(a) && Extended(a, a', pos, end)
    ensures RunsOk(a')
  {
    hide Slots;
    forall h: nat, i: nat | InRun(a', h, i) && h != i
      ensures i < |a'.bitmap| && a'.bitmap[i] && a'.dentry[i].nameLen == 0
    {
      if h != pos {
        assert InRun(a, h, i);
      }
    }
  }

  lemma WithEntryOwned(a: Area, a': Area, pos: nat, end: nat)
    requires Owned(a) && Extended(a, a', pos, end)
    ensures Owned(a')
  {
    hide Slots;
    forall i: nat | i < |a'.bitmap| && a'.bitmap[i] ensures exists h: nat :: InRun(a', h, i) {
      if pos <= i < end {
        assert InRun(a', pos, i);
      } else {
        var h: nat :| InRun(a, h, i);
        assert InRun(a', h, i);
      }
    }
  }

  // ----- removing an entry

  function WithoutEntry(a: Area, h: nat): Area
    requires h < |a.dentry|
  {
    a.(bitmap := seq(|a.bitmap|, i requires 0 <= i < |a.bitmap| => a.bitmap[i] && !(h <= i < RunEnd(a, h))))
  }

  /** The bit-clearing loop of f2fs_delete_entry. */
  method ClearSlots(a: Area, h: nat) returns (r: Area)
    requires Shaped(a) && h < |a.dentry| && RunEnd(a, h) <= |a.bitmap|
    ensures r == WithoutEntry(a, h)
  {
    hide Slots;
    var slots := Slots(a.dentry[h].nameLen);
    var bitmap := a.bitmap;
    for i := 0 to slots
      invariant |bitmap| == |a.bitmap|
      invariant forall k :: 0 <= k < |bitmap| ==> bitmap[k] == (a.bitmap[k] && !(h <= k < h + i))
    {
      bitmap := bitmap[h + i := false];
    }
    r := a.(bitmap := bitmap);
    assert r.bitmap == WithoutEntry(a, h).bitmap;
  }

  /** The entries of `a'` are those of `a` but the one at `pos`. */
  ghost predicate EntryRemoved(a: Area, a': Area, pos: nat) {
    && WellFormed(a') && |a'.bitmap| == |a.bitmap|
    && a'.dentry == a.dentry && a'.filename == a.filename
    && (forall h: nat :: Head(a', h) <==> Head(a, h) && h != pos)
  }

  /** Entries do not share slots. */
  lemma RunsApart(a: Area, h: nat, g: nat)
    requires WellFormed(a) && Head(a, h) && Head(a, g) && h < g
    ensures RunEnd(a, h) <= g
  {
    hide Slots;
    assert !InRun(a, h, g);
  }

  lemma WithoutEntryHeads(a: Area, pos: nat)
    requires WellFormed(a) && Head(a, pos)
    ensures forall h: nat :: Head(WithoutEntry(a, pos), h) <==> Head(a, h) && h != pos
    ensures forall h: nat :: Head(a, h) && h != pos ==> RunEnd(a, h) <= pos || RunEnd(a, pos) <= h
  {
    hide Slots, WellFormed;
    SlotsFit(a.dentry[pos].nameLen);
    forall h: nat | Head(a, h) && h != pos ensures RunEnd(a, h) <= pos || RunEnd(a, pos) <= h {
      if h > pos {
        RunsApart(a, pos, h);
      } else {
        RunsApart(a, h, pos);
      }
    }
  }

  lemma WithoutEntryRemoves(a: Area, pos: nat)
    requires WellFormed(a) && Head(a, pos)
    ensures EntryRemoved(a, WithoutEntry(a, pos), pos)
  {
    WithoutEntryHeads(a, pos);
    hide Slots;
    var a' := WithoutEntry(a, pos);
    forall h: nat, i: nat | InRun(a', h, i) && h != i
      ensures i < |a'.bitmap| && a'.bitmap[i] && a'.dentry[i].nameLen == 0
    {
      assert InRun(a, h, i);
    }
    forall i: nat | i < |a'.bitmap| && a'.bitmap[i] ensures exists h: nat :: InRun(a', h, i) {
      var h: nat :| InRun(a, h, i);
      assert InRun(a', h, i);
    }
  }
}
