/** Block accounting of a compressed file: i_compr_blocks and the blocks charged to the inode. */
module CompressFile {
  import opened Prelude
  import opened CompressCluster
  import Arith

  // ----- sums over clusters

  function Sum(cls: seq<Cluster>, f: Cluster -> int): int {
    if cls == [] then 0 else Sum(cls[..|cls| - 1], f) + f(cls[|cls| - 1])
  }

  function ChargeOf(released: bool): Cluster -> int {
    cl => Charge(cl, released)
  }

  lemma SumNext(cls: seq<Cluster>, c: nat, f: Cluster -> int)
    requires c < |cls|
    ensures Sum(cls[..c + 1], f) == Sum(cls[..c], f) + f(cls[c])
  {
    assert cls[..c + 1][..c] == cls[..c];
  }

  lemma SumAll(cls: seq<Cluster>, f: Cluster -> int)
    ensures Sum(cls[..|cls|], f) == Sum(cls, f)
  {
    assert cls[..|cls|] == cls;
  }

  lemma {:induction false} SumUpdate(cls: seq<Cluster>, c: nat, x: Cluster, f: Cluster -> int)
    requires c < |cls|
    ensures Sum(cls[c := x], f) == Sum(cls, f) - f(cls[c]) + f(x)
  {
    var last := |cls| - 1;
    if c == last {
      assert cls[c := x][..last] == cls[..last];
    } else {
      assert cls[c := x][..last] == cls[..last][c := x];
      SumUpdate(cls[..last], c, x, f);
    }
  }

  lemma {:induction false} SumMinus(a: seq<Cluster>, b: seq<Cluster>, f: Cluster -> int, g: Cluster -> int,
                                    h: Cluster -> int)
    requires |a| == |b| && forall k :: 0 <= k < |a| ==> f(a[k]) == g(b[k]) - h(b[k])
    ensures Sum(a, f) == Sum(b, g) - Sum(b, h)
  {
    if a != [] {
      SumMinus(a[..|a| - 1], b[..|b| - 1], f, g, h);
    }
  }

  lemma {:induction false} SumSame(a: seq<Cluster>, b: seq<Cluster>, f: Cluster -> int, g: Cluster -> int)
    requires |a| == |b| && forall k :: 0 <= k < |a| ==> f(a[k]) == g(b[k])
    ensures Sum(a, f) == Sum(b, g)
  {
    if a != [] {
      SumSame(a[..|a| - 1], b[..|b| - 1], f, g);
    }
  }

  ghost predicate ClustersOk(cls: seq<Cluster>, cs: nat, released: bool) {
    forall c :: 0 <= c < |cls| ==> ClusterOk(cls[c], cs, released)
  }

  /** What is still to come saves a non-negative number of blocks. */
  lemma {:induction false} SavedAhead(cls: seq<Cluster>, cs: nat, released: bool, c: nat)
    requires ClustersOk(cls, cs, released) && c <= |cls|
    ensures Sum(cls[..c], Saving) <= Sum(cls, Saving)
    decreases |cls| - c
  {
    if c < |cls| {
      SumNext(cls, c, Saving);
      SavingPositive(cls[c], cs, released);
      SavedAhead(cls, cs, released, c + 1);
    } else {
      SumAll(cls, Saving);
    }
  }

  lemma SavedFromHere(cls: seq<Cluster>, cs: nat, released: bool, c: nat)
    requires ClustersOk(cls, cs, released) && c < |cls|
    ensures 0 <= Sum(cls[..c], Saving) && Sum(cls[..c], Saving) + Saving(cls[c]) <= Sum(cls, Saving)
  {
    SumNext(cls, c, Saving);
    SavedAhead(cls, cs, released, c + 1);
    var head := cls[..c];
    SavedAhead(head, cs, released, 0);
    assert head[..0] == [];
  }

  /** i_compr_blocks is 0 exactly when nothing is compressed: the zero guard never hides a cluster. */
  lemma ZeroMeansUncompressed(cls: seq<Cluster>, cs: nat, released: bool)
    requires ClustersOk(cls, cs, released)
    ensures Sum(cls, Saving) == 0 <==> forall c :: 0 <= c < |cls| ==> !IsCompressed(cls[c])
    ensures Sum(cls, Saving) >= 0
  {
    assert cls[..0] == [];
    SavedAhead(cls, cs, released, 0);
    if c :| 0 <= c < |cls| && IsCompressed(cls[c]) {
      SavedFromHere(cls, cs, released, c);
      SavingPositive(cls[c], cs, released);
    } else {
      SumSame(cls, cls, Saving, _ => 0);
      SumZero(cls);
    }
  }

  lemma {:induction false} SumZero(cls: seq<Cluster>)
    ensures Sum(cls, _ => 0) == 0
  {
    if cls != [] {
      SumZero(cls[..|cls| - 1]);
    }
  }

  // ----- one cluster replaced

  /** Header slots lie below the end of the file. */
  ghost predicate Inside(cls: seq<Cluster>, cs: nat, pages: nat) {
    forall c: nat :: c < |cls| && IsCompressed(cls[c]) ==> cs * c < pages
  }

  /** The accounting: what the counters must be for these slots. */
  ghost predicate Balanced(cls: seq<Cluster>, cs: nat, released: bool, compr: int, charged: int, pages: nat) {
    && ClustersOk(cls, cs, released)
    && compr == (if released then 0 else Sum(cls, Saving))
    && charged == Sum(cls, ChargeOf(released))
    && Inside(cls, cs, pages)
  }

  lemma ReplaceCluster(cls: seq<Cluster>, cs: nat, released: bool, compr: int, charged: int, pages: nat, c: nat,
                       cl: Cluster, charge: int)
    requires Balanced(cls, cs, released, compr, charged, pages) && c < |cls| && ClusterOk(cl, cs, released)
    requires Charge(cl, released) == Charge(cls[c], released) + charge
    requires IsCompressed(cl) ==> cs * c < pages
    ensures Balanced(cls[c := cl], cs, released,
                     if released then 0 else compr - Saving(cls[c]) + Saving(cl), charged + charge, pages)
  {
    SumUpdate(cls, c, cl, Saving);
    SumUpdate(cls, c, cl, ChargeOf(released));
  }

  /** In a balanced file a compressed cluster is covered by i_compr_blocks, so the zero guard lets it go. */
  lemma GuardOpen(cls: seq<Cluster>, cs: nat, compr: int, charged: int, pages: nat, c: nat)
    requires Balanced(cls, cs, false, compr, charged, pages) && c < |cls|
    ensures compr >= Saving(cls[c]) >= 0 &&
      (IsCompressed(cls[c]) ==> compr > 0 && Saving(cls[c]) == cs - Valids(cls[c]))
  {
    SavedFromHere(cls, cs, false, c);
    SavingPositive(cls[c], cs, false);
  }

  /** A compressed write keeps the charge: every slot of the cluster was and stays reserved. */
  lemma CompressedWrite(cl: Cluster, cl': Cluster, cs: nat, nr: nat)
    requires ClusterOk(cl, cs, false) && Null !in cl && Packed(cl', nr, New) && |cl'| == cs
    ensures ClusterOk(cl', cs, false) && Saving(cl') == cs - nr && Charge(cl', false) == Charge(cl, false)
  {
    assert Packed(cl', nr, Tail(false));
    PackedCounts(cl', nr, false);
    forall i | 0 <= i < cs ensures Charged(cl[i], false) == Charged(cl'[i], false) {
      assert cl[i] in cl;
    }
    ChargeSame(cl, cl', false, false);
  }

  /** A raw write of a whole cluster ends its compression; it keeps the charge unless the header was not charged. */
  lemma RawWrite(cl: Cluster, cs: nat, released: bool, present: seq<bool>, blks: seq<nat>)
    requires cs > 0 && ClusterOk(cl, cs, released) && |present| == |blks| == cs
    requires IsCompressed(cl) ==> present[0]
    ensures
      var cl' := RawWritten(cl, present, blks);
      && ClusterOk(cl', cs, released) && !IsCompressed(cl')
      && Charge(cl', released) == Charge(cl, released) + if released && IsCompressed(cl) then 1 else 0
  {
    var cl' := RawWritten(cl, present, blks);
    if released && IsCompressed(cl) {
      ChargeUpdate(cl, 0, cl'[0], released);
      ChargeSame(cl[0 := cl'[0]], cl', released, released);
    } else {
      ChargeSame(cl, cl', released, released);
    }
  }

  lemma CompressedFacts(cl: Cluster, nr: nat, blks: seq<nat>)
    requires 1 <= nr <= |blks| && WrittenCompressed(cl, nr, blks[..nr])
    ensures WrittenCompressed(cl, nr, blks) && Valids(cl) == nr && IsCompressed(cl)
  {
    PackedCounts(cl, nr, false);
  }

  lemma RawFacts(cl: Cluster, cl': Cluster, present: seq<bool>, blks: seq<nat>)
    requires |present| == |blks| == |cl| > 0 && WrittenRaw(cl, cl', present, blks)
    requires IsCompressed(cl) ==> present[0]
    ensures !IsCompressed(cl')
  {
  }

  /**
   In a released file a raw write of a compressed cluster charges nothing for the header, so the sum is off by
   one.
   */
  lemma RawWriteUnbalances(cls: seq<Cluster>, cs: nat, charged: int, pages: nat, c: nat, present: seq<bool>,
                           blks: seq<nat>)
    requires cs > 0 && Balanced(cls, cs, true, 0, charged, pages) && c < |cls| && |present| == |blks| == cs
    requires IsCompressed(cls[c]) && present[0]
    ensures !Balanced(cls[c := RawWritten(cls[c], present, blks)], cs, true, 0, charged, pages)
  {
    RawWrite(cls[c], cs, true, present, blks);
    SumUpdate(cls, c, RawWritten(cls[c], present, blks), ChargeOf(true));
  }

  /** In a released file a reserved slot of a compressed cluster is neither data nor given up. */
  lemma NewSlotUnbalances(cls: seq<Cluster>, cs: nat, compr: int, charged: int, pages: nat, c: nat, i: nat)
    requires ClustersOk(cls, cs, true) && c < |cls| && i < cs && IsCompressed(cls[c]) && cls[c][i] == Null
    ensures !Balanced(cls[c := cls[c][i := New]], cs, true, compr, charged, pages)
  {
    var cl := cls[c][i := New];
    assert cl[i] == New && IsCompressed(cl);
    assert !ClusterOk(cl, cs, true);
    assert cls[c := cl][c] == cl;
  }

  /**
   Where this happens: one released cluster of four with one compressed block.  Reserving its third page,
   or writing its pages raw, unbalances the file.
   */
  lemma ReleasedCanUnbalance(blks: seq<nat>)
    requires |blks| == 4
    ensures
      var cl := [Compress, Valid(7), Null, Null];
      && Balanced([cl], 4, true, 0, 1, 4)
      && !Balanced([RawWritten(cl, [true, true, true, true], blks)], 4, true, 0, 1, 4)
      && !Balanced([cl[2 := New]], 4, true, 0, 2, 4)
  {
    var cl := [Compress, Valid(7), Null, Null];
    ReserveCanUnbalance();
    RawWriteUnbalances([cl], 4, 1, 4, 0, [true, true, true, true], blks);
    NewSlotUnbalances([cl], 4, 0, 2, 4, 0, 2);
    assert [cl][0 := cl[2 := New]] == [cl[2 := New]];
    assert [cl][0 := RawWritten(cl, [true, true, true, true], blks)] ==
      [RawWritten(cl, [true, true, true, true], blks)];
  }

  type Positive = n: nat | n > 0 witness 1

  /** The cluster byte `size` falls into. */
  function EndCluster(size: nat, page: Positive, cs: Positive): nat {
    SizeFacts(size, page, cs);
    size / (page * cs)
  }

  /** Clusters a size reaches into. */
  function RoundedUp(size: nat, page: Positive, cs: Positive): nat {
    SizeFacts(size, page, cs);
    CeilDiv(size, page * cs)
  }

  lemma EndFacts(size: nat, page: Positive, cs: Positive)
    ensures
      var (c, first, pages) := (EndCluster(size, page, cs), RoundedUp(size, page, cs), CeilDiv(size, page));
      && first == CeilDiv(pages, cs) && (first == 0 <==> size == 0)
      && (!Ragged(size, page, cs) ==> pages == cs * first)
      && (Ragged(size, page, cs) ==> first == c + 1 && cs * c < pages <= cs * c + cs)
  {
    SizeFacts(size, page, cs);
  }

  /** A size that is not a multiple of the cluster size. */
  predicate Ragged(size: nat, page: Positive, cs: Positive) {
    SizeFacts(size, page, cs);
    size % (page * cs) != 0
  }

  /** A compressed file's inode. */
  class Inode {
    /** i_cluster_size */
    const cs: Positive
    /** PAGE_SIZE */
    const page: Positive
    /** The address slots, cluster by cluster; dnodes hold whole clusters. */
    var clusters: seq<Cluster>
    /** i_compr_blocks */
    var compr: int
    /** Data blocks in i_blocks. */
    var charged: int
    /** FI_COMPRESS_RELEASED */
    var released: bool
    /** i_size */
    var size: nat

    /** Pages that i_size reaches. */
    function Pages(): nat
      reads this
    {
      CeilDiv(size, page)
    }

    ghost predicate Valid()
      reads this
    {
      cs >= 4 && Balanced(clusters, cs, released, compr, charged, Pages())
    }

    constructor (cs: Positive, page: Positive, count: nat)
      requires cs >= 4
      ensures Valid() && !released && compr == charged == 0 && this.cs == cs && this.page == page &&
        |clusters| == count && size == 0
    {
      this.cs := cs;
      this.page := page;
      clusters := seq(count, _ => seq(cs, _ => Null));
      compr, charged, released, size := 0, 0, false, 0;
      new;
      EmptyFile(clusters, cs, false, 0);
    }

    /** f2fs_reserve_new_block for one page; fallocate gets here for released files too. */
    method ReserveNewBlock(c: nat, i: nat, granted: bool) returns (ok: bool)
      requires Valid() && c < |clusters| && i < cs
      modifies `clusters, `charged
      ensures ok <==> granted || old(clusters[c][i]) != Null
      ensures ok && old(clusters[c][i]) == Null ==>
        clusters == old(clusters[c := clusters[c][i := New]]) && charged == old(charged) + 1
      ensures !ok || old(clusters[c][i]) != Null ==> clusters == old(clusters) && charged == old(charged)
      // a file stays balanced unless an empty slot of a compressed cluster is filled, which only a released one has
      ensures Valid() <==> !ok || old(clusters[c][i]) != Null || !IsCompressed(old(clusters[c]))
      ensures old(clusters[c][i]) == Null && IsCompressed(old(clusters[c])) ==> released
    {
      if clusters[c][i] != Null {
        return true;
      }
      NewSlot(clusters[c], cs, i, released);
      if !granted {
        return false;
      }
      if IsCompressed(clusters[c]) {
        NewSlotUnbalances(clusters, cs, compr, charged + 1, Pages(), c, i);
      } else {
        ReplaceCluster(clusters, cs, released, compr, charged, Pages(), c, clusters[c][i := New], 1);
      }
      charged := charged + 1;
      clusters := clusters[c := clusters[c][i := New]];
      return true;
    }

    /** f2fs_write_compressed_pages: bails out on a hole. */
    method WriteCompressedPages(c: nat, nr: nat, blks: seq<nat>) returns (ok: bool)
      requires Valid() && c < |clusters| && 1 <= nr < cs && |blks| == nr && cs * c < Pages()
      modifies `clusters, `compr
      ensures ok <==> Null !in old(clusters[c])
      ensures !ok ==> clusters == old(clusters) && compr == old(compr)
      ensures |clusters| == |old(clusters)|
      ensures ok ==> clusters == old(clusters)[c := clusters[c]] && |clusters[c]| == cs
      ensures ok ==> WrittenCompressed(clusters[c], nr, blks)
      ensures ok ==> compr == (cs - nr) + if released then 0 else old(compr) - Saving(old(clusters[c]))
      // a released file must save nothing
      ensures Valid() <==> !ok || !released
    {
      var cl := clusters[c];
      for i := 0 to cs
        invariant Null !in cl[..i]
      {
        if cl[i] == Null {
          return false;
        }
      }
      assert cl == cl[..cs];
      var cl', comprBlocks := WriteCompressed(cl, nr, blks);
      if !released {
        GuardOpen(clusters, cs, compr, charged, Pages(), c);
        CompressedWrite(cl, cl', cs, nr);
        ReplaceCluster(clusters, cs, false, compr, charged, Pages(), c, cl', 0);
      }
      if comprBlocks > 0 {
        compr := ComprUpdate(compr, cs, comprBlocks - 1, false);
      }
      compr := ComprUpdate(compr, cs, nr, true);
      clusters := clusters[c := cl'];
      ok := true;
    }

    /** f2fs_write_raw_pages; all pages of a compressed cluster are present. */
    method WriteRawPages(c: nat, present: seq<bool>, blks: seq<nat>)
      requires Valid() && c < |clusters| && |present| == |blks| == cs
      requires IsCompressed(clusters[c]) ==> forall i :: 0 <= i < cs ==> present[i]
      modifies `clusters, `compr
      ensures |clusters| == |old(clusters)| && clusters == old(clusters)[c := clusters[c]]
      ensures WrittenRaw(old(clusters[c]), clusters[c], present, blks)
      ensures compr == if released then 0 else old(compr) - Saving(old(clusters[c]))
      // the zero guard hides the cluster of a released file, whose header was not charged
      ensures Valid() <==> !released || !IsCompressed(old(clusters[c]))
    {
      var cl := clusters[c];
      OkIsNotMalformed(cl, cs, released);
      var ok, cl', compr' := WriteRaw(cl, compr, present, blks);
      RawWrite(cl, cs, released, present, blks);
      if released && IsCompressed(cl) {
        RawWriteUnbalances(clusters, cs, charged, Pages(), c, present, blks);
      } else {
        if !released {
          GuardOpen(clusters, cs, compr, charged, Pages(), c);
        }
        ReplaceCluster(clusters, cs, released, compr, charged, Pages(), c, cl', 0);
      }
      clusters, compr := clusters[c := cl'], compr';
    }

    /**
     f2fs_write_multi_pages: compressed if the whole cluster is inside the file, has no hole and shrinks
     by a page at least; raw otherwise.  `mayCompress` stands for the checks that do not touch the slots.
     */
    method WriteMultiPages(c: nat, mayCompress: bool, clen: nat, header: nat, present: seq<bool>, blks: seq<nat>)
      returns (compressed: bool)
      requires Valid() && c < |clusters| && |present| == |blks| == cs && 0 < header < page
      requires mayCompress || IsCompressed(clusters[c]) ==> forall i :: 0 <= i < cs ==> present[i]
      modifies `clusters, `compr
      ensures |clusters| == |old(clusters)| && clusters == old(clusters)[c := clusters[c]]
      ensures compressed <==>
        mayCompress && cs * c + cs <= Pages() && clen <= page * (cs - 1) - header && Null !in old(clusters[c])
      ensures IsCompressed(clusters[c]) <==> compressed
      ensures compressed ==>
        var nr := Valids(clusters[c]);
        && 1 <= nr < cs && page * (nr - 1) < clen + header <= page * nr
        && |clusters[c]| == cs && WrittenCompressed(clusters[c], nr, blks)
      ensures !compressed ==> WrittenRaw(old(clusters[c]), clusters[c], present, blks)
      // in a released file a cluster must neither be nor become compressed
      ensures Valid() <==> !released || (!compressed && !IsCompressed(old(clusters[c])))
    {
      hide WrittenCompressed, WrittenRaw, Valids, ChargeOf, Saving, Sum;
      if mayCompress && cs * c + cs <= Pages() {
        var nr := CompressedPages(clen, cs, page, header);
        if nr != -1 {
          compressed := WriteCompressedPages(c, nr, blks[..nr]);
          if compressed {
            CompressedFacts(clusters[c], nr, blks);
            return;
          }
        }
      }
      ghost var was := clusters[c];
      WriteRawPages(c, present, blks);
      RawFacts(was, clusters[c], present, blks);
      compressed := false;
    }

    /** f2fs_release_compress_blocks. */
    method ReleaseBlocks() returns (ok: bool, freed: int)
      requires Valid()
      modifies this
      ensures ok <==> !old(released)
      ensures !ok ==> unchanged(this)
      ensures ok ==> Valid() && released && size == old(size)
      ensures ok ==> clusters == AllReleased(old(clusters)) && compr == 0
      ensures ok ==> freed == old(compr) && charged == old(charged) - freed
    {
      hide ClustersOk, ChargeOf, Inside, Saving, Sum, AllReleased;
      if released {
        return false, 0;
      }
      ghost var was := clusters;
      released, freed, ok := true, 0, true;
      ReleaseBalanced(was, cs, compr, charged, Pages());
      SumStart(was, Saving);
      PlainWhenZero(was, cs, compr, charged, Pages());
      if compr == 0 {
        ReleasedUpToEnd(was, was, 0);
        return;
      }
      ReleasedFromStart(was);
      var c: nat := 0;
      while c < |clusters| && cs * c < Pages()
        invariant size == old(size) && released
        invariant c <= |was| && ReleasedUpTo(was, clusters, c)
        invariant freed == Sum(was[..c], Saving) && compr == old(compr) - freed && charged == old(charged) - freed
      {
        ReleasedNext(was, clusters, cs, c);
        SavedFromHere(was, cs, false, c);
        SumNext(was, c, Saving);
        if clusters[c][0] == Compress {
          var cl, comprBlocks := ReleaseSlots(clusters[c]);
          clusters := clusters[c := cl];
          compr := ComprUpdate(compr, cs, comprBlocks, false);
          charged := charged - (cs - comprBlocks);
          freed := freed + (cs - comprBlocks);
        }
        c := c + 1;
      }
      PlainPastEnd(was, cs, Pages(), c);
      ReleasedUpToEnd(was, clusters, c);
    }

    /**
     f2fs_reserve_compress_blocks with `free` blocks to be had.  Busy: i_compr_blocks is not 0;
     Invalid: not released; NoSpace: ran short, possibly half way.
     */
    method ReserveBlocks(free: nat) returns (st: ReserveStatus, got: int)
      requires Valid()
      modifies this
      ensures st == Busy <==> old(compr) != 0
      ensures st == Invalid <==> old(compr) == 0 && !old(released)
      ensures st == Busy || st == Invalid ==> unchanged(this)
      ensures st == Done <==> old(released) && Sum(old(clusters), Saving) <= free
      ensures st == Done ==> Valid() && !released && size == old(size)
      ensures st == Done ==> clusters == AllReserved(old(clusters)) && got == compr && charged == old(charged) + got
      ensures st == NoSpace ==> (Valid() <==> Untouched(old(clusters), cs, free))
      // running short keeps what was reserved before and takes all that is left
      ensures st == NoSpace ==> released && size == old(size) && charged == old(charged) + free && got == compr
      ensures st == NoSpace ==> exists c: nat :: RanShort(old(clusters), clusters, compr, free, c)
    {
      hide ClustersOk, ChargeOf, Inside, Saving, Sum, AllReserved, Untouched, ReservedUpTo, Balanced, Valids,
        Reserved, Plain, RanShort;
      got := 0;
      NothingSaved(clusters, cs, released, compr, charged, Pages());
      if compr != 0 {
        return Busy, got;
      }
      if !released {
        return Invalid, got;
      }
      ghost var was := clusters;
      BalancedParts(was, cs, true, compr, charged, Pages());
      ReserveBalanced(was, cs, charged, Pages());
      SumStart(was, Saving);
      ReservedFromStart(was);
      var c: nat := 0;
      while c < |clusters| && cs * c < Pages()
        invariant size == old(size) && released
        invariant c <= |was| && |clusters| == |was| && ReservedUpTo(was, clusters, c)
        invariant got == Sum(was[..c], Saving) <= free && compr == got && charged == old(charged) + got
      {
        ReservedNext(was, clusters, cs, c);
        SavedFromHere(was, cs, true, c);
        SumNext(was, c, Saving);
        if clusters[c][0] == Compress {
          var cl, comprBlocks := ReserveSlots(clusters[c]);
          clusters := clusters[c := cl];
          var want := cs - comprBlocks;
          var granted := if want <= free - got then want else free - got;
          if granted < want {
            ShortHere(was, clusters, compr, free, c);
            ReserveShort(was, clusters, cs, c, free, old(charged), charged + granted, Pages());
          }
          if granted == 0 {
            return NoSpace, got;
          }
          charged := charged + granted;
          if granted != want {
            return NoSpace, got;
          }
          compr := ComprUpdate(compr, cs, comprBlocks, true);
          got := got + granted;
        }
        c := c + 1;
      }
      PlainPastEnd(was, cs, Pages(), c);
      ReservedUpToEnd(was, clusters, c);
      released := false;
      st := Done;
    }

    /** f2fs_truncate_data_blocks_range over whole clusters. */
    method TruncateRange(first: nat, last: nat)
      requires Valid() && first <= last <= |clusters|
      modifies `clusters, `compr, `charged
      ensures Valid()
      ensures NulledRange(old(clusters), clusters, cs, first, last)
    {
      hide Balanced, Sum, ChargeOf, Saving, Valids;
      var nothingSaved := compr == 0;
      var nrFree, compressed, validBlocks := 0, false, 0;
      ghost var was := clusters;
      ghost var pending := 0;
      NothingSaved(clusters, cs, released, compr, charged, Pages());
      for c: int := first to last
        invariant nrFree >= 0 && NulledRange(was, clusters, cs, first, c)
        invariant pending == (if compressed then cs - validBlocks else 0) && (compressed ==> pending > 0)
        invariant Balanced(clusters, cs, released, compr - (if released then 0 else pending), charged - nrFree, Pages())
        invariant !released && nothingSaved ==> Plain(clusters, 0)
        invariant released ==> nothingSaved
      {
        GuardNotEarly(clusters, cs, released, compr, charged - nrFree, Pages(), pending);
        if compressed {
          compr := ComprUpdate(compr, cs, validBlocks, false);
        }
        NullOne(clusters, cs, released, compr, charged - nrFree, Pages(), c, nothingSaved);
        compressed := clusters[c][0] == Compress;
        var freed;
        validBlocks, freed := TruncateSlots(clusters[c], nothingSaved, compressed);
        pending := if compressed then cs - validBlocks else 0;
        nrFree := nrFree + freed;
        clusters := clusters[c := NullCluster(cs)];
      }
      GuardNotEarly(clusters, cs, released, compr, charged - nrFree, Pages(), pending);
      if compressed {
        compr := ComprUpdate(compr, cs, validBlocks, false);
      }
      if nrFree > 0 {
        charged := charged - nrFree;
      }
    }

    /**
     f2fs_truncate_data_blocks_range from slot k of a cluster that is not compressed; what lies behind is
     empty by now.
     */
    method TruncateTail(c: nat, k: nat)
      requires Valid() && c < |clusters| && 0 < k <= cs && !IsCompressed(clusters[c])
      modifies `clusters, `charged
      ensures Valid() && clusters == old(clusters)[c := CutAt(old(clusters[c]), k)]
    {
      var cl := clusters[c];
      var nrFree := 0;
      CutCluster(cl, cs, released, k);
      assert cl[..k] == cl[..k][..k];
      for i := k to cs
        invariant 0 <= nrFree == Charge(cl[..i], released) - Charge(cl[..k], released)
      {
        assert cl[..i + 1][..i] == cl[..i];
        if cl[i] != Null {
          nrFree := nrFree + 1;
        }
      }
      assert cl[..cs] == cl;
      ReplaceCluster(clusters, cs, released, compr, charged, Pages(), c, CutAt(cl, k), -nrFree);
      clusters := clusters[c := CutAt(cl, k)];
      if nrFree > 0 {
        charged := charged - nrFree;
      }
    }

    /**
     A size change by f2fs_setattr.  A size that grows touches no slot.  A size that does not runs
     f2fs_truncate_blocks: whole clusters go, dnode after dnode; an emptied file may be written again; of
     the cluster the new end cuts, the slots past the end go unless it is compressed, in which case it is
     handed to write-back as it is.
     */
    method SetSize(newSize: nat, span: nat -> nat) returns (dirtied: Option<nat>)
      requires Valid() && forall c: nat :: span(c) > 0
      modifies this
      ensures Valid() && size == newSize && |clusters| == |old(clusters)|
      ensures newSize > old(size) ==>
        clusters == old(clusters) && compr == old(compr) && charged == old(charged) && released == old(released) &&
          dirtied == None
      ensures newSize <= old(size) ==> forall c :: 0 <= c < |clusters| ==>
        clusters[c] == TruncatedAt(old(clusters[c]), cs, c, Pages())
      ensures newSize <= old(size) ==> released == (old(released) && newSize > 0)
      ensures newSize <= old(size) ==> (dirtied.Some? <==>
        Ragged(newSize, page, cs) && EndCluster(newSize, page, cs) < |clusters| &&
          IsCompressed(old(clusters[EndCluster(newSize, page, cs)])))
      ensures dirtied.Some? ==> dirtied.value == EndCluster(newSize, page, cs)
    {
      hide RoundedUp, Balanced, Sum, ChargeOf, CeilDiv, CutAt, EndCluster, Ragged, TruncatedAt, Inside;
      dirtied := None;
      ghost var was := clusters;
      if newSize > size {
        CeilDivMonotone(size, newSize, page);
        SizeChange(clusters, cs, released, compr, charged, Pages(), CeilDiv(newSize, page));
        size := newSize;
        return;
      }
      EndFacts(newSize, page, cs);
      ClusterSizes(clusters, cs, released, compr, charged, Pages());
      ghost var pages := CeilDiv(newSize, page);
      var first := RoundedUp(newSize, page, cs);
      TruncateFrom(first, span);
      ghost var cut := clusters;
      if first == 0 {
        Emptied(was, clusters, cs, released, compr, charged, Pages());
        released := false;
      }
      if Ragged(newSize, page, cs) {
        var c := EndCluster(newSize, page, cs);
        if c < |clusters| {
          if IsCompressed(clusters[c]) {
            dirtied := Some(c);
          } else {
            TruncateTail(c, CeilDiv(newSize, page) - cs * c);
          }
        }
      }
      AllTruncated(was, cut, clusters, cs, first, pages, EndCluster(newSize, page, cs), Ragged(newSize, page, cs));
      SizeChange(clusters, cs, released, compr, charged, Pages(), pages);
      size := newSize;
    }

    /** All clusters from `first` on, dnode after dnode. */
    method TruncateFrom(first: nat, span: nat -> nat)
      requires Valid() && forall c: nat :: span(c) > 0
      modifies `clusters, `compr, `charged
      ensures Valid() && NulledRange(old(clusters), clusters, cs, Min(first, |old(clusters)|), |old(clusters)|)
    {
      var from := Min(first, |clusters|);
      ghost var was, start := clusters, from;
      NulledNothing(was, cs, start);
      while from < |clusters|
        invariant start <= from <= |clusters| && |clusters| == |was|
        invariant Valid() && NulledRange(was, clusters, cs, start, from)
      {
        var last := Min(from + span(from), |clusters|);
        ghost var before := clusters;
        TruncateRange(from, last);
        NulledMore(was, before, clusters, cs, start, from, last);
        from := last;
      }
    }
  }

  // ----- release

  function AllReleased(cls: seq<Cluster>): seq<Cluster> {
    seq(|cls|, c requires 0 <= c < |cls| => Released(cls[c]))
  }

  ghost predicate ReleasedUpTo(was: seq<Cluster>, now: seq<Cluster>, c: nat) {
    && |now| == |was|
    && (forall k :: 0 <= k < |was| ==> now[k] == if k < c then Released(was[k]) else was[k])
  }

  lemma ReleasedFromStart(was: seq<Cluster>)
    ensures ReleasedUpTo(was, was, 0)
  {
  }

  lemma SumStart(cls: seq<Cluster>, f: Cluster -> int)
    ensures Sum(cls[..0], f) == 0
  {
  }

  /** From c on no cluster is compressed. */
  ghost predicate Plain(cls: seq<Cluster>, c: nat) {
    forall k :: c <= k < |cls| ==> !IsCompressed(cls[k])
  }

  lemma PlainWhenZero(cls: seq<Cluster>, cs: nat, compr: int, charged: int, pages: nat)
    requires Balanced(cls, cs, false, compr, charged, pages)
    ensures compr == 0 ==> Plain(cls, 0)
  {
    ZeroMeansUncompressed(cls, cs, false);
  }

  lemma PlainPastEnd(cls: seq<Cluster>, cs: nat, pages: nat, c: nat)
    requires Inside(cls, cs, pages) && (c == |cls| || cs * c >= pages)
    ensures Plain(cls, c)
  {
    forall k: nat | c <= k < |cls| ensures !IsCompressed(cls[k]) {
      Arith.MulStep(cs, c, k);
      assert IsCompressed(cls[k]) ==> cs * k < pages;
    }
  }

  lemma ReleasedNext(was: seq<Cluster>, now: seq<Cluster>, cs: nat, c: nat)
    requires ClustersOk(was, cs, false) && cs > 0 && c < |was| && ReleasedUpTo(was, now, c)
    ensures now[c] == was[c] && |now[c]| == cs
    ensures ReleasedUpTo(was, now[c := Released(was[c])], c + 1)
    ensures IsCompressed(was[c]) ==> Saving(was[c]) == cs - Valids(was[c])
    ensures !IsCompressed(was[c]) ==> ReleasedUpTo(was, now, c + 1) && Saving(was[c]) == 0
    ensures IsCompressed(was[c]) <==> Saving(was[c]) > 0
  {
    SavingPositive(was[c], cs, false);
  }

  lemma {:induction false} PlainSum(cls: seq<Cluster>, c: nat)
    requires c <= |cls| && Plain(cls, c)
    ensures Sum(cls[..c], Saving) == Sum(cls, Saving)
    decreases |cls| - c
  {
    if c < |cls| {
      SumNext(cls, c, Saving);
      PlainSum(cls, c + 1);
    } else {
      SumAll(cls, Saving);
    }
  }

  lemma ReleasedUpToEnd(was: seq<Cluster>, now: seq<Cluster>, c: nat)
    requires ReleasedUpTo(was, now, c) && c <= |was| && Plain(was, c)
    ensures now == AllReleased(was) && Sum(was[..c], Saving) == Sum(was, Saving)
  {
    PlainSum(was, c);
  }

  lemma ReleaseBalanced(cls: seq<Cluster>, cs: nat, compr: int, charged: int, pages: nat)
    requires Balanced(cls, cs, false, compr, charged, pages)
    ensures ClustersOk(cls, cs, false) && compr == Sum(cls, Saving)
    ensures Balanced(AllReleased(cls), cs, true, 0, charged - compr, pages)
  {
    var after := AllReleased(cls);
    forall c | 0 <= c < |cls|
      ensures ClusterOk(after[c], cs, true) && ChargeOf(true)(after[c]) == ChargeOf(false)(cls[c]) - Saving(cls[c])
    {
      ReleaseCluster(cls[c], cs);
    }
    SumMinus(after, cls, ChargeOf(true), ChargeOf(false), Saving);
  }

  lemma NewSlot(cl: Cluster, cs: nat, i: nat, released: bool)
    requires ClusterOk(cl, cs, released) && i < cs && cl[i] == Null
    ensures Charge(cl[i := New], released) == Charge(cl, released) + 1
    ensures IsCompressed(cl) ==> released
    ensures !IsCompressed(cl) ==> !IsCompressed(cl[i := New]) && ClusterOk(cl[i := New], cs, released)
  {
    ChargeUpdate(cl, i, New, released);
  }

  lemma EmptyFile(cls: seq<Cluster>, cs: nat, released: bool, pages: nat)
    requires cs > 0 && forall c :: 0 <= c < |cls| ==> |cls[c]| == cs && forall i :: 0 <= i < cs ==> cls[c][i] == Null
    ensures Balanced(cls, cs, released, 0, 0, pages)
  {
    forall c | 0 <= c < |cls|
      ensures ChargeOf(released)(cls[c]) == 0 && Saving(cls[c]) == 0 && ClusterOk(cls[c], cs, released)
    {
      ChargeAllNull(cls[c], released);
    }
    SumSame(cls, cls, ChargeOf(released), _ => 0);
    SumSame(cls, cls, Saving, _ => 0);
    SumZero(cls);
  }

  // ----- reserve

  datatype ReserveStatus = Done | Busy | Invalid | NoSpace

  function AllReserved(cls: seq<Cluster>): seq<Cluster> {
    seq(|cls|, c requires 0 <= c < |cls| => Reserved(cls[c]))
  }

  ghost predicate ReservedUpTo(was: seq<Cluster>, now: seq<Cluster>, c: nat) {
    && |now| == |was|
    && (forall k :: 0 <= k < |was| ==> now[k] == if k < c then Reserved(was[k]) else was[k])
  }

  lemma ReservedFromStart(was: seq<Cluster>)
    ensures ReservedUpTo(was, was, 0)
  {
  }

  lemma BalancedParts(cls: seq<Cluster>, cs: nat, released: bool, compr: int, charged: int, pages: nat)
    requires Balanced(cls, cs, released, compr, charged, pages)
    ensures ClustersOk(cls, cs, released) && Inside(cls, cs, pages)
  {
  }

  lemma ReservedNext(was: seq<Cluster>, now: seq<Cluster>, cs: nat, c: nat)
    requires ClustersOk(was, cs, true) && cs > 0 && c < |was| && ReservedUpTo(was, now, c)
    ensures |now| == |was| && now[c] == was[c] && |now[c]| == cs
    ensures ReservedUpTo(was, now[c := Reserved(was[c])], c + 1)
    ensures IsCompressed(was[c]) ==> Saving(was[c]) == cs - Valids(was[c])
    ensures !IsCompressed(was[c]) ==> ReservedUpTo(was, now, c + 1) && Saving(was[c]) == 0
    ensures IsCompressed(was[c]) <==> Saving(was[c]) > 0
  {
    SavingPositive(was[c], cs, true);
  }

  lemma ReservedUpToEnd(was: seq<Cluster>, now: seq<Cluster>, c: nat)
    requires ReservedUpTo(was, now, c) && c <= |was| && Plain(was, c)
    ensures now == AllReserved(was) && Sum(was[..c], Saving) == Sum(was, Saving)
  {
    PlainSum(was, c);
  }

  lemma ReserveBalanced(cls: seq<Cluster>, cs: nat, charged: int, pages: nat)
    requires Balanced(cls, cs, true, 0, charged, pages)
    ensures Balanced(AllReserved(cls), cs, false, Sum(cls, Saving), charged + Sum(cls, Saving), pages)
  {
    var after := AllReserved(cls);
    forall c | 0 <= c < |cls|
      ensures ClusterOk(after[c], cs, false) && Saving(after[c]) == Saving(cls[c])
      ensures ChargeOf(true)(cls[c]) == ChargeOf(false)(after[c]) - Saving(after[c])
    {
      ReserveCluster(cls[c], cs);
    }
    SumMinus(cls, after, ChargeOf(true), ChargeOf(false), Saving);
    SumSame(after, cls, Saving, Saving);
  }

  /** Running short changes nothing: no block is left and the first compressed cluster has no slot to reserve. */
  ghost predicate Untouched(cls: seq<Cluster>, cs: nat, free: nat) {
    free == 0 && exists c: nat :: FirstCompressed(cls, c) && Valids(cls[c]) == cs - 1
  }

  ghost predicate FirstCompressed(cls: seq<Cluster>, c: nat) {
    && c < |cls| && IsCompressed(cls[c])
    && (forall k :: 0 <= k < c ==> !IsCompressed(cls[k]))
  }

  /** The blocks ran out at cluster c: its slots and those before are reserved, and only those before are counted. */
  ghost predicate RanShort(was: seq<Cluster>, now: seq<Cluster>, compr: int, free: nat, c: nat) {
    && c < |was| && IsCompressed(was[c]) && ReservedUpTo(was, now, c + 1)
    && compr == Sum(was[..c], Saving) <= free < compr + Saving(was[c])
  }

  lemma ShortHere(was: seq<Cluster>, now: seq<Cluster>, compr: int, free: nat, c: nat)
    requires c < |was| && IsCompressed(was[c]) && ReservedUpTo(was, now, c + 1)
    requires compr == Sum(was[..c], Saving) <= free < compr + Saving(was[c])
    ensures RanShort(was, now, compr, free, c)
  {
  }

  /** Running short at cluster c leaves the file out of balance, but for one harmless case. */
  lemma ReserveShort(was: seq<Cluster>, now: seq<Cluster>, cs: nat, c: nat, free: nat, charged: int, charged': int,
                     pages: nat)
    requires Balanced(was, cs, true, 0, charged, pages) && cs > 1
    requires c < |was| && IsCompressed(was[c]) && ReservedUpTo(was, now, c + 1)
    requires var done := Sum(was[..c], Saving); 0 <= done <= free < done + Saving(was[c]) && charged' == charged + free
    ensures Balanced(now, cs, true, Sum(was[..c], Saving), charged', pages) <==> Untouched(was, cs, free)
  {
    hide ClustersOk, Sum;
    BalancedParts(was, cs, true, 0, charged, pages);
    if k :| 0 <= k < c && IsCompressed(was[k]) {
      SavedBefore(was, cs, k, c);
    } else {
      assert FirstCompressed(was, c);
      NoneBefore(was, c);
      ShortAtFirst(was, now, cs, c);
    }
  }

  /** Up to the first compressed cluster nothing changes, and that one changes exactly if it has a slot to reserve. */
  lemma ShortAtFirst(was: seq<Cluster>, now: seq<Cluster>, cs: nat, c: nat)
    requires ClustersOk(was, cs, true) && cs > 1 && FirstCompressed(was, c) && ReservedUpTo(was, now, c + 1)
    ensures Saving(was[c]) == cs - Valids(was[c])
    ensures if Valids(was[c]) == cs - 1 then now == was else !ClustersOk(now, cs, true)
  {
    var n: nat :| Packed(was[c], n, Tail(true));
    PackedCounts(was[c], n, true);
    ReservedPacked(was[c], n);
    if n == cs - 1 {
      forall k | 0 <= k < |was| ensures now[k] == was[k] {
        assert k == c ==> Reserved(was[c]) == was[c];
      }
      assert now == was;
    } else {
      assert now[c][cs - 1] == New && IsCompressed(now[c]);
      assert !ClusterOk(now[c], cs, true);
    }
  }

  lemma SavedBefore(was: seq<Cluster>, cs: nat, k: nat, c: nat)
    requires ClustersOk(was, cs, true) && k < c < |was| && IsCompressed(was[k])
    ensures Sum(was[..c], Saving) > 0
  {
    var head := was[..c];
    SavedFromHere(head, cs, true, k);
    SavingPositive(head[k], cs, true);
  }

  lemma NoneBefore(was: seq<Cluster>, c: nat)
    requires c <= |was| && forall k :: 0 <= k < c ==> !IsCompressed(was[k])
    ensures Sum(was[..c], Saving) == 0
  {
    var head := was[..c];
    PlainSum(head, 0);
    assert head[..0] == [];
  }

  // ----- truncate

  function NullCluster(cs: nat): Cluster {
    seq(cs, _ => Null)
  }

  ghost predicate NulledRange(was: seq<Cluster>, now: seq<Cluster>, cs: nat, first: nat, last: nat) {
    && |now| == |was|
    && (forall k :: 0 <= k < |was| ==> now[k] == if first <= k < last then NullCluster(cs) else was[k])
  }

  /** The slot loop of f2fs_truncate_data_blocks_range, for one cluster. */
  method TruncateSlots(cl: Cluster, released: bool, compressed: bool) returns (validBlocks: nat, nrFree: nat)
    ensures validBlocks == if compressed then Valids(cl) else 0
    ensures nrFree == Charge(cl, released)
  {
    validBlocks, nrFree := 0, 0;
    for i := 0 to |cl|
      invariant validBlocks == if compressed then Valids(cl[..i]) else 0
      invariant nrFree == Charge(cl[..i], released)
    {
      assert cl[..i + 1][..i] == cl[..i];
      if cl[i] == Null {
        continue;
      }
      if cl[i].Valid? {
        if compressed {
          validBlocks := validBlocks + 1;
        }
      }
      if !released || cl[i] != Compress {
        nrFree := nrFree + 1;
      }
    }
    assert cl[..|cl|] == cl;
  }

  lemma NothingSaved(cls: seq<Cluster>, cs: nat, released: bool, compr: int, charged: int, pages: nat)
    requires Balanced(cls, cs, released, compr, charged, pages)
    ensures !released && compr == 0 ==> Plain(cls, 0)
    ensures released ==> compr == 0
  {
    if !released {
      ZeroMeansUncompressed(cls, cs, false);
    }
  }

  /** While a file is not released, a pending saving is still counted, so the zero guard does not drop it. */
  lemma GuardNotEarly(cls: seq<Cluster>, cs: nat, released: bool, compr: int, charged: int, pages: nat, pending: int)
    requires Balanced(cls, cs, released, compr - (if released then 0 else pending), charged, pages) && pending >= 0
    ensures !released ==> compr >= pending
    ensures released ==> compr == 0
  {
    if !released {
      ZeroMeansUncompressed(cls, cs, false);
    }
  }

  /** Clearing one cluster takes its saving and its charge with it. */
  lemma NullOne(cls: seq<Cluster>, cs: nat, released: bool, compr: int, charged: int, pages: nat, c: nat,
                nothingSaved: bool)
    requires Balanced(cls, cs, released, compr, charged, pages) && cs > 0 && c < |cls|
    requires released ==> nothingSaved
    requires !released && nothingSaved ==> Plain(cls, 0)
    ensures |cls[c]| == cs
    ensures Balanced(cls[c := NullCluster(cs)], cs, released, compr - (if released then 0 else Saving(cls[c])),
                     charged - Charge(cls[c], nothingSaved), pages)
    ensures Plain(cls, 0) ==> Plain(cls[c := NullCluster(cs)], 0)
    ensures IsCompressed(cls[c]) ==> Saving(cls[c]) == cs - Valids(cls[c]) > 0
    ensures !IsCompressed(cls[c]) ==> Saving(cls[c]) == 0
  {
    var cl := NullCluster(cs);
    ChargeAllNull(cl, released);
    SavingPositive(cls[c], cs, released);
    SumUpdate(cls, c, cl, Saving);
    SumUpdate(cls, c, cl, ChargeOf(released));
    if released != nothingSaved {
      ChargeSame(cls[c], cls[c], released, nothingSaved);
    }
  }

  lemma NulledNothing(was: seq<Cluster>, cs: nat, start: nat)
    ensures NulledRange(was, was, cs, start, start)
  {
  }

  lemma NulledMore(was: seq<Cluster>, before: seq<Cluster>, now: seq<Cluster>, cs: nat, start: nat, from: nat,
                   last: nat)
    requires start <= from <= last
    requires NulledRange(was, before, cs, start, from) && NulledRange(before, now, cs, from, last)
    ensures NulledRange(was, now, cs, start, last)
  {
  }

  /** The slots from k on are cleared. */
  function CutAt(cl: Cluster, k: nat): Cluster
    requires k <= |cl|
  {
    cl[..k] + NullCluster(|cl| - k)
  }

  /** What a size of `pages` pages leaves of cluster c. */
  function TruncatedAt(cl: Cluster, cs: nat, c: nat, pages: nat): Cluster
    requires |cl| == cs
  {
    if pages <= cs * c then NullCluster(cs)
    else if cs * c + cs <= pages || IsCompressed(cl) then cl
    else CutAt(cl, pages - cs * c)
  }

  /** Slot by slot: a page past the end is gone unless its cluster is compressed and reaches into the file. */
  lemma TruncatedSlots(cl: Cluster, cs: nat, c: nat, pages: nat, i: nat)
    requires |cl| == cs && i < cs
    ensures
      var cl' := TruncatedAt(cl, cs, c, pages);
      && |cl'| == cs
      && cl'[i] == if cs * c + i < pages || (cl[0] == Compress && cs * c < pages) then cl[i] else Null
  {
  }

  lemma {:induction false} ChargeAppendNull(cl: Cluster, n: nat, released: bool)
    ensures Charge(cl + NullCluster(n), released) == Charge(cl, released)
  {
    var more := cl + NullCluster(n);
    if n == 0 {
      assert more == cl;
    } else {
      assert more[..|more| - 1] == cl + NullCluster(n - 1);
      ChargeAppendNull(cl, n - 1, released);
    }
  }

  lemma CutCluster(cl: Cluster, cs: nat, released: bool, k: nat)
    requires ClusterOk(cl, cs, released) && 0 < k <= cs && !IsCompressed(cl)
    ensures ClusterOk(CutAt(cl, k), cs, released) && !IsCompressed(CutAt(cl, k))
    ensures Charge(CutAt(cl, k), released) == Charge(cl[..k], released)
    ensures Saving(CutAt(cl, k)) == Saving(cl) == 0
  {
    ChargeAppendNull(cl[..k], cs - k, released);
  }

  /** Byte, page and cluster counts of a new size agree. */
  lemma SizeFacts(size: nat, page: nat, cs: nat)
    requires page > 0 && cs > 0
    ensures page * cs > 0
    ensures
      var (c, first, pages) := (size / (page * cs), CeilDiv(size, page * cs), CeilDiv(size, page));
      && first == CeilDiv(pages, cs) && (first == 0 <==> size == 0)
      && (size % (page * cs) == 0 ==> first == c && pages == cs * c)
      && (size % (page * cs) != 0 ==> first == c + 1 && cs * c < pages <= cs * c + cs)
  {
    CeilDivTwice(size, page, cs);
    var w := page * cs;
    var c, r := size / w, size % w;
    assert size == w * c + r;
    hide CeilDiv;
    CeilDivIs(size, w, c, r);
    CeilDivBound(size, w);
    PagesOf(size, page, cs, w, c, r);
  }

  lemma PagesOf(size: nat, page: nat, cs: nat, w: nat, c: nat, r: nat)
    requires page > 0 && w == page * cs && size == w * c + r && r < w
    ensures r == 0 ==> CeilDiv(size, page) == cs * c
    ensures r != 0 ==> cs * c < CeilDiv(size, page) <= cs * c + cs
  {
    hide CeilDiv;
    assert page * (cs * c) == w * c;
    if r == 0 {
      CeilDivIs(size, page, cs * c, 0);
    } else {
      CeilDivGalois(size, page, cs * c);
      CeilDivGalois(size, page, cs * c + cs);
      assert page * (cs * c + cs) == w * c + w;
    }
  }

  lemma CeilDivMonotone(m: nat, n: nat, d: nat)
    requires d > 0 && m <= n
    ensures CeilDiv(m, d) <= CeilDiv(n, d)
  {
    CeilDivBound(n, d);
    CeilDivGalois(m, d, CeilDiv(n, d));
  }

  /** The size enters the accounting only as a bound on the compressed clusters. */
  lemma SizeChange(cls: seq<Cluster>, cs: nat, released: bool, compr: int, charged: int, pages: nat, pages': nat)
    requires Balanced(cls, cs, released, compr, charged, pages)
    requires pages <= pages' || Inside(cls, cs, pages')
    ensures Balanced(cls, cs, released, compr, charged, pages')
  {
  }

  lemma ClusterSizes(cls: seq<Cluster>, cs: nat, released: bool, compr: int, charged: int, pages: nat)
    requires Balanced(cls, cs, released, compr, charged, pages)
    ensures forall k :: 0 <= k < |cls| ==> |cls[k]| == cs
  {
  }

  lemma Emptied(was: seq<Cluster>, now: seq<Cluster>, cs: nat, released: bool, compr: int, charged: int, pages: nat)
    requires cs > 0 && Balanced(now, cs, released, compr, charged, pages) && NulledRange(was, now, cs, 0, |was|)
    ensures Balanced(now, cs, false, compr, charged, pages)
  {
    EmptyFile(now, cs, released, pages);
    EmptyFile(now, cs, false, pages);
  }

  /** Whole clusters cleared from `first` on, then the tail of the one the end cuts. */
  lemma AllTruncated(was: seq<Cluster>, cut: seq<Cluster>, now: seq<Cluster>, cs: nat, first: nat, pages: nat, c: nat,
                     partial: bool)
    requires cs > 0 && first == CeilDiv(pages, cs) && NulledRange(was, cut, cs, Min(first, |was|), |was|)
    requires forall k :: 0 <= k < |was| ==> |was[k]| == cs
    requires if partial then first == c + 1 && cs * c < pages <= cs * c + cs else pages == cs * first
    requires
      now == if partial && c < |cut| && !IsCompressed(cut[c]) then cut[c := CutAt(cut[c], pages - cs * c)] else cut
    ensures |now| == |was| && forall k :: 0 <= k < |was| ==> now[k] == TruncatedAt(was[k], cs, k, pages)
    ensures Inside(now, cs, pages)
  {
    forall k: nat | k < |was|
      ensures now[k] == TruncatedAt(was[k], cs, k, pages) && (IsCompressed(now[k]) ==> cs * k < pages)
    {
      CeilDivGalois(pages, cs, k);
      if partial {
        Arith.MulStep(cs, k, c);
        if k == c {
          assert cut[k] == was[k];
          assert pages == cs * c + cs ==> CutAt(was[k], cs) == was[k];
        }
      } else {
        Arith.MulStep(cs, k, first);
      }
    }
  }

  /** A reserve that runs short part way breaks the accounting: one cluster of four, one block to be had. */
  lemma ReserveCanUnbalance()
    ensures
      var file := [[Compress, Valid(7), Null, Null]];
      Balanced(file, 4, true, 0, 1, 4) && Sum(file, Saving) > 1 && !Untouched(file, 4, 1)
  {
    var cl := [Compress, Valid(7), Null, Null];
    assert Packed(cl, 1, Tail(true));
    PackedCounts(cl, 1, true);
    assert [cl][..0] == [];
    SumNext([cl], 0, Saving);
    SumNext([cl], 0, ChargeOf(true));
    SumAll([cl], Saving);
    SumAll([cl], ChargeOf(true));
  }
}
