/** One cluster of a compressed file: the address slots of its pages and how they are counted. */
module CompressCluster {
  import opened Prelude

  /** NULL_ADDR, NEW_ADDR, COMPRESS_ADDR, or a block on the device. */
  datatype Slot = Null | New | Compress | Valid(blk: nat)

  type Cluster = seq<Slot>

  function Bit(b: bool): nat { if b then 1 else 0 }

  /** Slots that name a block. */
  function Valids(cl: Cluster): nat {
    if cl == [] then 0 else Valids(cl[..|cl| - 1]) + Bit(cl[|cl| - 1].Valid?)
  }

  /** The header of a released file's compressed cluster is not charged to the file. */
  predicate Charged(s: Slot, released: bool) {
    s != Null && !(released && s == Compress)
  }

  /** Blocks charged to the file for these slots. */
  function Charge(cl: Cluster, released: bool): nat {
    if cl == [] then 0 else Charge(cl[..|cl| - 1], released) + Bit(Charged(cl[|cl| - 1], released))
  }

  predicate IsCompressed(cl: Cluster) {
    cl != [] && cl[0] == Compress
  }

  /** Blocks the compression of this cluster saves. */
  function Saving(cl: Cluster): int {
    if IsCompressed(cl) then |cl| - Valids(cl) else 0
  }

  /** A compressed cluster: header, compressed blocks, and a tail that is reserved or released. */
  predicate Packed(cl: Cluster, n: nat, tail: Slot) {
    && n < |cl|
    && cl[0] == Compress
    && (forall i :: 1 <= i <= n ==> cl[i].Valid?)
    && (forall i :: n < i < |cl| ==> cl[i] == tail)
  }

  /** Slots of a compressed cluster that hold no data: reserved, or given up on release. */
  function Tail(released: bool): Slot { if released then Null else New }

  ghost predicate ClusterOk(cl: Cluster, cs: nat, released: bool) {
    && |cl| == cs
    && (forall i :: 1 <= i < cs ==> cl[i] != Compress)
    && (IsCompressed(cl) ==> exists n: nat :: Packed(cl, n, Tail(released)))
  }

  // ----- counting

  lemma {:induction false} ValidsOfPacked(cl: Cluster, n: nat, tail: Slot, k: nat)
    requires Packed(cl, n, tail) && (tail == New || tail == Null) && 0 < k <= |cl|
    ensures Valids(cl[..k]) == if k <= n + 1 then k - 1 else n
  {
    assert cl[..k][..k - 1] == cl[..k - 1];
    if k > 1 {
      ValidsOfPacked(cl, n, tail, k - 1);
    }
  }

  lemma {:induction false} ChargeOfPacked(cl: Cluster, n: nat, released: bool, k: nat)
    requires Packed(cl, n, Tail(released)) && 0 < k <= |cl|
    ensures Charge(cl[..k], released) == if !released then k else if k <= n + 1 then k - 1 else n
  {
    assert cl[..k][..k - 1] == cl[..k - 1];
    if k > 1 {
      ChargeOfPacked(cl, n, released, k - 1);
    }
  }

  /** The counters of a compressed cluster, from its number of compressed blocks alone. */
  lemma PackedCounts(cl: Cluster, n: nat, released: bool)
    requires Packed(cl, n, Tail(released))
    ensures Valids(cl) == n && Saving(cl) == |cl| - n >= 1
    ensures Charge(cl, released) == if released then n else |cl|
  {
    assert cl[..|cl|] == cl;
    ValidsOfPacked(cl, n, Tail(released), |cl|);
    ChargeOfPacked(cl, n, released, |cl|);
  }

  /** Every compressed cluster saves at least one block, every other none. */
  lemma SavingPositive(cl: Cluster, cs: nat, released: bool)
    requires ClusterOk(cl, cs, released)
    ensures Saving(cl) >= 0 && (IsCompressed(cl) <==> Saving(cl) > 0)
  {
    if IsCompressed(cl) {
      var n: nat :| Packed(cl, n, Tail(released));
      PackedCounts(cl, n, released);
    }
  }

  /** Replacing one slot. */
  lemma {:induction false} ChargeUpdate(cl: Cluster, i: nat, s: Slot, released: bool)
    requires i < |cl|
    ensures Charge(cl[i := s], released) ==
      Charge(cl, released) - Bit(Charged(cl[i], released)) + Bit(Charged(s, released))
  {
    var last := |cl| - 1;
    if i == last {
      assert cl[i := s][..last] == cl[..last];
    } else {
      assert cl[i := s][..last] == cl[..last][i := s];
      ChargeUpdate(cl[..last], i, s, released);
    }
  }

  /** The charge depends only on which slots are charged. */
  lemma {:induction false} ChargeSame(a: Cluster, b: Cluster, r: bool, r': bool)
    requires |a| == |b| && forall i :: 0 <= i < |a| ==> Charged(a[i], r) == Charged(b[i], r')
    ensures Charge(a, r) == Charge(b, r')
  {
    if a != [] {
      ChargeSame(a[..|a| - 1], b[..|b| - 1], r, r');
    }
  }

  lemma {:induction false} ChargeAllNull(cl: Cluster, released: bool)
    requires forall i :: 0 <= i < |cl| ==> cl[i] == Null
    ensures Charge(cl, released) == 0
  {
    if cl != [] {
      ChargeAllNull(cl[..|cl| - 1], released);
    }
  }

  // ----- the size bound of f2fs_compress_pages

  /** Pages f2fs_compress_pages produces for clen compressed bytes, or -1 when it gives up. */
  function CompressedPages(clen: nat, cs: nat, page: nat, header: nat): (r: int)
    requires cs >= 2 && 0 < header < page
    ensures r == -1 <==> clen > page * (cs - 1) - header
    ensures r != -1 ==> 1 <= r <= cs - 1 && page * (r - 1) < clen + header <= page * r
  {
    if clen > page * (cs - 1) - header then -1
    else
      var r := CeilDiv(clen + header, page);
      PageBound(clen + header, page, cs - 1);
      r
  }

  lemma PageBound(n: nat, page: nat, limit: nat)
    requires page > 0 && 0 < n <= page * limit
    ensures var r := CeilDiv(n, page); 1 <= r <= limit && page * (r - 1) < n <= page * r
  {
    var r := CeilDiv(n, page);
    var m := (n + page - 1) % page;
    assert n + page - 1 == page * r + m;
    assert page * (r - 1) == page * r - page;
    assert r > limit ==> page * (r - 1) >= page * limit;
    assert r < 1 ==> page * r <= 0;
  }

  // ----- reading a cluster

  /** The shapes f2fs_sanity_check_cluster rejects: a second header, or a block after the end of data. */
  ghost predicate Malformed(cl: Cluster) {
    && IsCompressed(cl)
    && ((exists i :: 1 <= i < |cl| && cl[i] == Compress) ||
        (exists i, j :: 1 <= i < j < |cl| && !cl[i].Valid? && cl[j].Valid?))
  }

  method SanityCheckCluster(cl: Cluster) returns (bad: bool)
    requires cl != []
    ensures bad <==> Malformed(cl)
  {
    if cl[0] != Compress {
      return false;
    }
    var clusterEnd := 0;
    for i := 1 to |cl|
      invariant forall k :: 1 <= k < i ==> cl[k] != Compress
      invariant 0 <= clusterEnd < i
      invariant clusterEnd == 0 ==> forall k :: 1 <= k < i ==> cl[k].Valid?
      invariant clusterEnd > 0 ==> !cl[clusterEnd].Valid?
      invariant clusterEnd > 0 ==> forall k :: 1 <= k < clusterEnd ==> cl[k].Valid?
      invariant clusterEnd > 0 ==> forall k :: clusterEnd <= k < i ==> !cl[k].Valid?
    {
      if cl[i] == Compress {
        return true;
      }
      if !cl[i].Valid? {
        if clusterEnd == 0 {
          clusterEnd := i;
        }
        continue;
      }
      if clusterEnd > 0 {
        return true;
      }
    }
    return false;
  }

  lemma OkIsNotMalformed(cl: Cluster, cs: nat, released: bool)
    requires ClusterOk(cl, cs, released)
    ensures !Malformed(cl)
  {
    if IsCompressed(cl) {
      var n: nat :| Packed(cl, n, Tail(released));
      forall i, j | 1 <= i < j < |cl| && !cl[i].Valid? ensures !cl[j].Valid? {
        assert i > n;
      }
    }
  }

  /** __f2fs_cluster_blocks: blocks of a compressed cluster, 0 for any other, -1 if it is malformed. */
  method ClusterBlocks(cl: Cluster, compr: bool) returns (n: int)
    requires cl != []
    ensures Malformed(cl) <==> n == -1
    ensures !IsCompressed(cl) ==> n == 0
    ensures IsCompressed(cl) && !Malformed(cl) ==> n == if compr then 1 + Valids(cl) else Charge(cl, false)
  {
    var bad := SanityCheckCluster(cl);
    if bad {
      return -1;
    }
    n := 0;
    if cl[0] == Compress {
      n := 1;
      assert cl[..1] == [Compress];
      for i := 1 to |cl|
        invariant n == if compr then 1 + Valids(cl[..i]) else Charge(cl[..i], false)
      {
        assert cl[..i + 1][..i] == cl[..i];
        if compr {
          if cl[i].Valid? {
            n := n + 1;
          }
        } else if cl[i] != Null {
          n := n + 1;
        }
      }
      assert cl[..|cl|] == cl;
    }
  }

  // ----- changing a cluster

  /** The slot loop of f2fs_write_compressed_pages; no slot may be NULL_ADDR. */
  method WriteCompressed(cl: Cluster, nr: nat, blks: seq<nat>) returns (cl': Cluster, comprBlocks: nat)
    requires 1 <= nr < |cl| && |blks| == nr && Null !in cl
    requires forall i :: 1 <= i < |cl| ==> cl[i] != Compress
    ensures |cl'| == |cl| && Packed(cl', nr, New)
    ensures forall i :: 1 <= i <= nr ==> cl'[i] == Valid(blks[i - 1])
    ensures comprBlocks == if IsCompressed(cl) then 1 + Valids(cl) else 0
  {
    cl', comprBlocks := cl, 0;
    for i := 0 to |cl|
      invariant |cl'| == |cl|
      invariant forall k :: i <= k < |cl| ==> cl'[k] == cl[k]
      invariant i > 0 ==> cl'[0] == Compress
      invariant forall k :: 1 <= k < i && k <= nr ==> cl'[k] == Valid(blks[k - 1])
      invariant forall k :: nr < k < i ==> cl'[k] == New
      invariant comprBlocks == if i > 0 && cl[0] == Compress then 1 + Valids(cl[..i]) else 0
    {
      assert cl[..i + 1][..i] == cl[..i];
      assert cl[i] in cl;
      if i == 0 {
        if cl[0] == Compress {
          comprBlocks := comprBlocks + 1;
        }
        cl' := cl'[0 := Compress];
        continue;
      }
      if comprBlocks > 0 && cl[i].Valid? {
        comprBlocks := comprBlocks + 1;
      }
      if i > nr {
        if cl[i].Valid? {
          cl' := cl'[i := New];
        }
        continue;
      }
      cl' := cl'[i := Valid(blks[i - 1])];
    }
    assert cl[..|cl|] == cl;
  }

  /** Slot by slot what a raw write does: a page that is present and no hole goes to its block, other slots stay. */
  ghost predicate WrittenRaw(cl: Cluster, cl': Cluster, present: seq<bool>, blks: seq<nat>)
    requires |present| == |blks| == |cl|
  {
    && |cl'| == |cl|
    && (forall i :: 0 <= i < |cl| ==> present[i] && cl[i] != Null ==> cl'[i] == Valid(blks[i]))
    && (forall i :: 0 <= i < |cl| ==> !present[i] || cl[i] == Null ==> cl'[i] == cl[i])
  }

  /** Slot by slot what a compressed write leaves: the header, each compressed page at its block, reserved slots. */
  ghost predicate WrittenCompressed(cl': Cluster, nr: nat, blks: seq<nat>)
    requires nr <= |blks|
  {
    && nr < |cl'|
    && cl'[0] == Compress
    && (forall i :: 1 <= i <= nr ==> cl'[i] == Valid(blks[i - 1]))
    && (forall i :: nr < i < |cl'| ==> cl'[i] == New)
  }

  /** The cluster a raw write leaves behind. */
  function RawWritten(cl: Cluster, present: seq<bool>, blks: seq<nat>): Cluster
    requires |present| == |blks| == |cl|
  {
    seq(|cl|, i requires 0 <= i < |cl| => if present[i] && cl[i] != Null then Valid(blks[i]) else cl[i])
  }

  /** f2fs_i_compr_blocks_update. */
  function ComprUpdate(compr: int, cs: nat, blocks: nat, add: bool): int {
    var diff := cs - blocks;
    if !add && compr == 0 then compr else if add then compr + diff else compr - diff
  }

  /**
   f2fs_write_raw_pages: every page that is present goes to its own block (the old one if written in
   place); the header takes the cluster's saving back.
   */
  method WriteRaw(cl: Cluster, compr: int, present: seq<bool>, blks: seq<nat>)
    returns (ok: bool, cl': Cluster, compr': int)
    requires cl != [] && |present| == |blks| == |cl|
    requires forall i :: 1 <= i < |cl| ==> cl[i] != Compress
    ensures ok <==> !Malformed(cl)
    ensures !ok ==> cl' == cl && compr' == compr
    ensures ok ==> cl' == RawWritten(cl, present, blks)
    ensures ok ==>
      compr' == if IsCompressed(cl) && present[0] then ComprUpdate(compr, |cl|, Valids(cl), false) else compr
  {
    cl', compr' := cl, compr;
    var comprBlocks := ClusterBlocks(cl, true);
    if comprBlocks < 0 {
      return false, cl', compr';
    }
    for i := 0 to |cl|
      invariant |cl'| == |cl|
      invariant forall k :: i <= k < |cl| ==> cl'[k] == cl[k]
      invariant forall k :: 0 <= k < i ==> cl'[k] == RawWritten(cl, present, blks)[k]
      invariant compr' ==
        if i > 0 && IsCompressed(cl) && present[0] then ComprUpdate(compr, |cl|, Valids(cl), false) else compr
    {
      if !present[i] || cl'[i] == Null {
        continue;
      }
      if comprBlocks > 0 && cl'[i] == Compress {
        compr' := ComprUpdate(compr', |cl|, comprBlocks - 1, false);
      }
      cl' := cl'[i := Valid(blks[i])];
    }
    ok := true;
  }

  /** A compressed cluster with its reserved slots given up. */
  function Released(cl: Cluster): Cluster {
    if IsCompressed(cl)
    then seq(|cl|, i requires 0 <= i < |cl| => if i > 0 && cl[i] == New then Null else cl[i])
    else cl
  }

  /** A compressed cluster with its empty slots reserved. */
  function Reserved(cl: Cluster): Cluster {
    if IsCompressed(cl)
    then seq(|cl|, i requires 0 <= i < |cl| => if i > 0 && !cl[i].Valid? then New else cl[i])
    else cl
  }

  lemma ReleasedPacked(cl: Cluster, n: nat)
    requires Packed(cl, n, New)
    ensures Packed(Released(cl), n, Null) && Reserved(Released(cl)) == cl
  {
  }

  lemma ReservedPacked(cl: Cluster, n: nat)
    requires Packed(cl, n, Null)
    ensures Packed(Reserved(cl), n, New) && Released(Reserved(cl)) == cl
  {
  }

  /** Neither touches data: the same slots name blocks, and the same ones. */
  lemma DataStays(cl: Cluster, i: nat)
    requires i < |cl| && forall k :: 1 <= k < |cl| ==> cl[k] != Compress
    ensures |Released(cl)| == |Reserved(cl)| == |cl|
    ensures cl[i].Valid? || i == 0 || !IsCompressed(cl) ==> Released(cl)[i] == Reserved(cl)[i] == cl[i]
    ensures !cl[i].Valid? && i > 0 && IsCompressed(cl) ==> Released(cl)[i] == Null && Reserved(cl)[i] == New
  {
  }

  /** Release: still well formed, charged less by exactly what the compression saves, and undone by reserve. */
  lemma ReleaseCluster(cl: Cluster, cs: nat)
    requires ClusterOk(cl, cs, false)
    ensures ClusterOk(Released(cl), cs, true) && Reserved(Released(cl)) == cl
    ensures Charge(Released(cl), true) == Charge(cl, false) - Saving(cl)
    ensures Saving(Released(cl)) == Saving(cl)
  {
    if IsCompressed(cl) {
      var n: nat :| Packed(cl, n, Tail(false));
      ReleasedPacked(cl, n);
      PackedCounts(cl, n, false);
      PackedCounts(Released(cl), n, true);
    } else {
      ChargeSame(cl, cl, true, false);
    }
  }

  /** Reserve: still well formed, charged more by exactly what the compression saves, and undone by release. */
  lemma ReserveCluster(cl: Cluster, cs: nat)
    requires ClusterOk(cl, cs, true)
    ensures ClusterOk(Reserved(cl), cs, false) && Released(Reserved(cl)) == cl
    ensures Charge(Reserved(cl), false) == Charge(cl, true) + Saving(cl)
    ensures Saving(Reserved(cl)) == Saving(cl)
  {
    if IsCompressed(cl) {
      var n: nat :| Packed(cl, n, Tail(true));
      ReservedPacked(cl, n);
      PackedCounts(cl, n, true);
      PackedCounts(Reserved(cl), n, false);
    } else {
      ChargeSame(cl, cl, true, false);
    }
  }

  /** The slot loop of release_compress_blocks: frees the reserved slots and counts the compressed blocks. */
  method ReleaseSlots(cl: Cluster) returns (cl': Cluster, comprBlocks: nat)
    requires IsCompressed(cl)
    ensures cl' == Released(cl) && comprBlocks == Valids(cl)
  {
    cl', comprBlocks := cl, 0;
    assert cl[..1] == [Compress];
    for i := 1 to |cl|
      invariant |cl'| == |cl|
      invariant forall k :: 0 <= k < i ==> cl'[k] == Released(cl)[k]
      invariant forall k :: i <= k < |cl| ==> cl'[k] == cl[k]
      invariant comprBlocks == Valids(cl[..i])
    {
      assert cl[..i + 1][..i] == cl[..i];
      if cl[i].Valid? {
        comprBlocks := comprBlocks + 1;
      }
      if cl[i] != New {
        continue;
      }
      cl' := cl'[i := Null];
    }
    assert cl[..|cl|] == cl;
  }

  /** The slot loop of reserve_compress_blocks. */
  method ReserveSlots(cl: Cluster) returns (cl': Cluster, comprBlocks: nat)
    requires IsCompressed(cl)
    ensures cl' == Reserved(cl) && comprBlocks == Valids(cl)
  {
    cl', comprBlocks := cl, 0;
    assert cl[..1] == [Compress];
    for i := 1 to |cl|
      invariant |cl'| == |cl|
      invariant forall k :: 0 <= k < i ==> cl'[k] == Reserved(cl)[k]
      invariant forall k :: i <= k < |cl| ==> cl'[k] == cl[k]
      invariant comprBlocks == Valids(cl[..i])
    {
      assert cl[..i + 1][..i] == cl[..i];
      if cl[i].Valid? {
        comprBlocks := comprBlocks + 1;
        continue;
      }
      cl' := cl'[i := New];
    }
    assert cl[..|cl|] == cl;
  }
}
