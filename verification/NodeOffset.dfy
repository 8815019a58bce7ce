/**
 Node offsets and block indices of a file's node tree: an inode, two direct nodes, two indirect nodes
 and one double indirect node, numbered in preorder.
 */
module NodeOffset {
  import Arith

  /** ADDRS_PER_INODE, ADDRS_PER_BLOCK and NIDS_PER_BLOCK. */
  datatype Geometry = Geometry(inInode: nat, perBlock: nat, nids: nat)
  {
    predicate Ok() {
      inInode > 0 && perBlock > 0 && nids > 0
    }
  }

  /** A direct node, by its place in the tree. */
  datatype Place = InInode | Direct(k: nat) | Indirect(which: nat, k: nat) | Double(i: nat, k: nat)

  predicate PlaceOk(p: Place, n: nat) {
    match p
    case InInode => true
    case Direct(k) => k < 2
    case Indirect(which, k) => which < 2 && k < n
    case Double(i, k) => i < n && k < n
  }

  /** Preorder number of the node at a place. */
  function Number(p: Place, n: nat): nat {
    match p
    case InInode => 0
    case Direct(k) => 1 + k
    case Indirect(which, k) => 4 + which * (n + 1) + k
    case Double(i, k) => 7 + 2 * n + i * (n + 1) + k
  }

  /** Direct nodes, the inode included, that come before it. */
  function Rank(p: Place, n: nat): nat {
    match p
    case InInode => 0
    case Direct(k) => 1 + k
    case Indirect(which, k) => 3 + which * n + k
    case Double(i, k) => 3 + 2 * n + i * n + k
  }

  ghost predicate IsDirectNode(ofs: nat, n: nat) {
    exists p :: PlaceOk(p, n) && Number(p, n) == ofs
  }

  /** First block index below the direct node of this rank. */
  function FirstBlock(g: Geometry, rank: nat): nat {
    if rank == 0 then 0 else g.inInode + (rank - 1) * g.perBlock
  }

  function Width(g: Geometry, ofs: nat): nat {
    if ofs == 0 then g.inInode else g.perBlock
  }

  /** `bidx` of the code: how many direct nodes past the inode come before this one. */
  function NodesBefore(ofs: nat, n: nat): nat
    requires n > 0 && ofs > 0 && IsDirectNode(ofs, n)
  {
    var indirect := 2 * n + 4;
    OffsetCases(ofs, n);
    if ofs <= 2 then ofs - 1
    else if ofs <= indirect then ofs - 2 - (ofs - 4) / (n + 1)
    else ofs - 5 - (ofs - indirect - 3) / (n + 1)
  }

  /** f2fs_start_bidx_of_node; the caller gives a direct node. */
  function StartBidx(ofs: nat, g: Geometry): nat
    requires g.Ok() && IsDirectNode(ofs, g.nids)
  {
    if ofs == 0 then 0 else NodesBefore(ofs, g.nids) * g.perBlock + g.inInode
  }

  lemma MulDiv(i: nat, k: nat, d: nat)
    requires k < d
    ensures (i * d + k) / d == i
  {
    Arith.DivUnique(i * d + k, d, i, k);
  }

  /** The quotients the code uses, worked out for every place. */
  lemma Quotients(p: Place, n: nat)
    requires n > 0 && PlaceOk(p, n)
    ensures p.Indirect? ==> 4 <= Number(p, n) <= 2 * n + 4 && (Number(p, n) - 4) / (n + 1) == p.which
    ensures p.Double? ==> Number(p, n) >= 2 * n + 7 && (Number(p, n) - 2 * n - 7) / (n + 1) == p.i
  {
    PlaceBounds(p, n);
    match p
    case InInode =>
    case Direct(_) =>
    case Indirect(which, k) => MulDiv(which, k, n + 1);
    case Double(i, k) => MulDiv(i, k, n + 1);
  }

  lemma OffsetCases(ofs: nat, n: nat)
    requires n > 0 && IsDirectNode(ofs, n)
    ensures ofs > 2 ==> ofs >= 4
    ensures 4 <= ofs <= 2 * n + 4 ==> (ofs - 4) / (n + 1) <= 1
    ensures ofs > 2 * n + 4 ==> ofs >= 2 * n + 7 && (ofs - 2 * n - 7) / (n + 1) <= ofs - 2 * n - 7
  {
    var p :| PlaceOk(p, n) && Number(p, n) == ofs;
    PlaceBounds(p, n);
    Quotients(p, n);
    DoubleGrows(p, n);
    hide Number;
  }

  lemma DoubleGrows(p: Place, n: nat)
    requires PlaceOk(p, n)
    ensures p.Double? ==> p.i <= Number(p, n) - 2 * n - 7
    ensures !p.Indirect? && !p.Double? ==> Number(p, n) <= 2
  {
    if p.Double? {
      assert p.i * (n + 1) == p.i * n + p.i;
    }
  }

  /** Indirect nodes are numbered and not ranked. */
  lemma NumberOverRank(p: Place, n: nat)
    ensures Number(p, n) ==
      Rank(p, n) + match p case Indirect(which, _) => 1 + which case Double(i, _) => 4 + i case _ => 0
  {
    match p
    case InInode =>
    case Direct(_) =>
    case Indirect(which, _) => assert which * (n + 1) == which * n + which;
    case Double(i, _) => assert i * (n + 1) == i * n + i;
  }

  lemma NodesBeforeIsRank(p: Place, n: nat)
    requires n > 0 && PlaceOk(p, n) && !p.InInode?
    ensures Number(p, n) > 0 && IsDirectNode(Number(p, n), n)
    ensures NodesBefore(Number(p, n), n) + 1 == Rank(p, n)
  {
    hide Number, Rank;
    PlaceBounds(p, n);
    Quotients(p, n);
    DoubleGrows(p, n);
    NumberOverRank(p, n);
    assert IsDirectNode(Number(p, n), n);
  }

  /** The computed index is the first block of the node: block space is cut up in the order of the nodes. */
  lemma StartIsFirstBlock(p: Place, g: Geometry)
    requires g.Ok() && PlaceOk(p, g.nids)
    ensures IsDirectNode(Number(p, g.nids), g.nids)
    ensures StartBidx(Number(p, g.nids), g) == FirstBlock(g, Rank(p, g.nids))
  {
    assert IsDirectNode(Number(p, g.nids), g.nids);
    if !p.InInode? {
      NodesBeforeIsRank(p, g.nids);
      hide Number, Rank, NodesBefore;
    }
  }

  // ----- order

  /** Number of direct nodes, the inode included. */
  function Total(n: nat): nat {
    3 + 2 * n + n * n
  }

  /** The direct node after p. */
  function Next(p: Place, n: nat): Place {
    match p
    case InInode => Direct(0)
    case Direct(k) => if k == 0 then Direct(1) else Indirect(0, 0)
    case Indirect(which, k) =>
      if k + 1 < n then Indirect(which, k + 1) else if which == 0 then Indirect(1, 0) else Double(0, 0)
    case Double(i, k) => if k + 1 < n then Double(i, k + 1) else Double(i + 1, 0)
  }

  lemma RankBound(p: Place, n: nat)
    requires n > 0 && PlaceOk(p, n)
    ensures Rank(p, n) < Total(n)
    ensures Rank(p, n) + 1 == Total(n) <==> p == Double(n - 1, n - 1)
  {
    if p.Double? {
      Arith.MulStep(n, p.i, n);
      Arith.MulStep(n, p.i, n - 1);
      assert n * (n - 1) == n * n - n;
    }
  }

  /** No gap: every direct node but the last is followed by one that starts where it ends. */
  lemma NextFollows(p: Place, n: nat)
    requires n > 0 && PlaceOk(p, n) && p != Double(n - 1, n - 1)
    ensures PlaceOk(Next(p, n), n) && Rank(Next(p, n), n) == Rank(p, n) + 1 && Number(Next(p, n), n) > Number(p, n)
  {
    if p.Double? {
      NextDouble(p.i, n);
    } else if p.Indirect? {
      assert p.which == 0 || p.which == 1;
    }
  }

  lemma NextDouble(i: nat, n: nat)
    ensures Number(Double(i + 1, 0), n) == Number(Double(i, n), n) + 1 &&
      Rank(Double(i + 1, 0), n) == Rank(Double(i, n), n)
  {
    Arith.MulNext(n, i);
    Arith.MulNext(n + 1, i);
  }

  /** Preorder among the direct nodes. */
  predicate Before(p: Place, q: Place) {
    match (p, q)
    case (InInode, _) => !q.InInode?
    case (Direct(k), Direct(k')) => k < k'
    case (Direct(_), _) => q.Indirect? || q.Double?
    case (Indirect(w, k), Indirect(w', k')) => w < w' || (w == w' && k < k')
    case (Indirect(_, _), _) => q.Double?
    case (Double(i, k), Double(i', k')) => i < i' || (i == i' && k < k')
    case (Double(_, _), _) => false
  }

  lemma PlaceBounds(p: Place, n: nat)
    requires PlaceOk(p, n)
    ensures p.Direct? ==> 1 <= Number(p, n) <= 2
    ensures p.Indirect? ==> 4 <= Number(p, n) <= 2 * n + 4 && 3 <= Rank(p, n) <= 2 * n + 2
    ensures p.Double? ==> Number(p, n) >= 2 * n + 7 && Rank(p, n) >= 2 * n + 3
  {
    if p.Indirect? {
      assert p.which == 0 || p.which == 1;
    }
  }

  lemma BeforeIndirect(p: Place, q: Place, n: nat)
    requires PlaceOk(p, n) && PlaceOk(q, n) && p.Indirect? && q.Indirect? && Before(p, q)
    ensures Number(p, n) < Number(q, n) && Rank(p, n) < Rank(q, n)
  {
    assert p.which == q.which || (p.which == 0 && q.which == 1);
  }

  lemma BeforeDouble(p: Place, q: Place, n: nat)
    requires PlaceOk(p, n) && PlaceOk(q, n) && p.Double? && q.Double? && Before(p, q)
    ensures Number(p, n) < Number(q, n) && Rank(p, n) < Rank(q, n)
  {
    Arith.MulStep(n, p.i, q.i);
    Arith.MulStep(n + 1, p.i, q.i);
  }

  lemma BeforeOrders(p: Place, q: Place, n: nat)
    requires PlaceOk(p, n) && PlaceOk(q, n) && Before(p, q)
    ensures Number(p, n) < Number(q, n) && Rank(p, n) < Rank(q, n)
  {
    PlaceBounds(p, n);
    PlaceBounds(q, n);
    if p.Indirect? && q.Indirect? {
      BeforeIndirect(p, q, n);
    } else if p.Double? {
      BeforeDouble(p, q, n);
    } else {
      assert p.InInode? || p.Direct? || q.Double?;
    }
  }

  /** Numbers and ranks order the direct nodes alike, and tell them apart. */
  lemma SameOrder(p: Place, q: Place, n: nat)
    requires PlaceOk(p, n) && PlaceOk(q, n)
    ensures Number(p, n) < Number(q, n) <==> Rank(p, n) < Rank(q, n)
    ensures Number(p, n) == Number(q, n) <==> p == q
  {
    hide Number, Rank;
    if Before(p, q) {
      BeforeOrders(p, q, n);
    } else if Before(q, p) {
      BeforeOrders(q, p, n);
    } else {
      assert p == q;
    }
  }

  lemma RankZero(p: Place, n: nat)
    requires PlaceOk(p, n)
    ensures Rank(p, n) == 0 <==> Number(p, n) == 0
  {
  }

  lemma FirstBlockNext(g: Geometry, rank: nat)
    ensures FirstBlock(g, rank + 1) == FirstBlock(g, rank) + if rank == 0 then g.inInode else g.perBlock
  {
    if rank > 0 {
      Arith.MulNext(g.perBlock, rank - 1);
    }
  }

  /** max_inode_blocks. */
  function MaxInodeBlocks(g: Geometry): nat {
    var leaf := g.perBlock;
    var ind := leaf * g.nids;
    g.inInode + leaf * 2 + ind * 2 + ind * g.nids
  }

  lemma MaxIsEnd(g: Geometry)
    ensures MaxInodeBlocks(g) == FirstBlock(g, Total(g.nids))
  {
    var a, n := g.perBlock, g.nids;
    assert (2 + 2 * n + n * n) * a == 2 * a + 2 * (a * n) + (a * n) * n by {
      assert n * n * a == a * n * n;
    }
  }

  /**
   Start indices increase strictly with the node offset and leave no gap; the last direct node ends at
   max_inode_blocks.
   */
  lemma StartsTile(p: Place, g: Geometry)
    requires g.Ok() && PlaceOk(p, g.nids)
    ensures
      var n := g.nids;
      var ofs := Number(p, n);
      && IsDirectNode(ofs, n)
      && (if p == Double(n - 1, n - 1) then StartBidx(ofs, g) + Width(g, ofs) == MaxInodeBlocks(g)
          else
            var next := Number(Next(p, n), n);
            IsDirectNode(next, n) && next > ofs && StartBidx(next, g) == StartBidx(ofs, g) + Width(g, ofs))
  {
    hide Number, Rank, StartBidx, FirstBlock, IsDirectNode, Next, MaxInodeBlocks;
    var n := g.nids;
    StartIsFirstBlock(p, g);
    RankBound(p, n);
    RankZero(p, n);
    FirstBlockNext(g, Rank(p, n));
    if p == Double(n - 1, n - 1) {
      MaxIsEnd(g);
    } else {
      NextFollows(p, n);
      StartIsFirstBlock(Next(p, n), g);
    }
  }

  lemma StartsIncrease(p: Place, q: Place, g: Geometry)
    requires g.Ok() && PlaceOk(p, g.nids) && PlaceOk(q, g.nids) && Number(p, g.nids) < Number(q, g.nids)
    ensures IsDirectNode(Number(p, g.nids), g.nids) && IsDirectNode(Number(q, g.nids), g.nids)
    ensures StartBidx(Number(p, g.nids), g) + Width(g, Number(p, g.nids)) <= StartBidx(Number(q, g.nids), g)
  {
    hide Number, Rank, StartBidx, FirstBlock, IsDirectNode;
    StartIsFirstBlock(p, g);
    StartIsFirstBlock(q, g);
    RankZero(p, g.nids);
    SameOrder(p, q, g.nids);
    FirstBlockNext(g, Rank(p, g.nids));
    RanksApart(g, Rank(p, g.nids) + 1, Rank(q, g.nids));
  }

  lemma RanksApart(g: Geometry, r: nat, r': nat)
    requires 0 < r <= r'
    ensures FirstBlock(g, r) <= FirstBlock(g, r')
  {
    Arith.MulStep(g.perBlock, r - 1, r' - 1);
  }

  // ----- the way down

  /** get_node_path's arrays, from the inode to the direct node; the inode's node pointers are slots 1 to 5. */
  datatype Path = Path(offset: seq<nat>, noffset: seq<nat>) | TooBig
  {
    /** The direct node the path ends in, and the slot there. */
    predicate Leads(node: nat, slot: nat) {
      Path? && |offset| == |noffset| > 0 && noffset[|noffset| - 1] == node && offset[|offset| - 1] == slot
    }
  }

  function GetNodePath(block: nat, g: Geometry): Path
    requires g.Ok()
  {
    var (a, n) := (g.perBlock, g.nids);
    var ind := a * n;
    if block < g.inInode then Path([block], [0])
    else
      var b1 := block - g.inInode;
      if b1 < a then Path([1, b1], [0, 1])
      else
        var b2 := b1 - a;
        if b2 < a then Path([2, b2], [0, 2])
        else
          var b3 := b2 - a;
          if b3 < ind then SinglePath(3, 3, b3, a)
          else
            var b4 := b3 - ind;
            if b4 < ind then SinglePath(4, 4 + n, b4, a)
            else
              var b5 := b4 - ind;
              if b5 < ind * n then MulPos(a, n); DoublePath(b5, a, n, ind)
              else TooBig
  }

  /** Through the indirect node `node` that hangs off slot `root` of the inode. */
  function SinglePath(root: nat, node: nat, b: nat, a: nat): Path
    requires a > 0
  {
    var k: nat := b / a;
    Path([root, k, b % a], [0, node, node + 1 + k])
  }

  function DoublePath(b: nat, a: nat, n: nat, ind: nat): Path
    requires a > 0 && n > 0 && ind > 0
  {
    var i: nat := b / ind;
    var k: nat := b / a % n;
    Path([5, i, k, b % a], [0, 5 + n * 2, 6 + n * 2 + i * (n + 1), 7 + n * 2 + i * (n + 1) + k])
  }

  lemma MulPos(a: nat, n: nat)
    requires a > 0 && n > 0
    ensures a * n > 0
  {
  }

  /** Splitting a block index below one indirect node. */
  lemma SplitOnce(b: nat, a: nat, n: nat) returns (k: nat, r: nat)
    requires a > 0 && b < a * n
    ensures k == b / a < n && r == b % a < a && b == k * a + r
  {
    k, r := b / a, b % a;
    assert b == a * k + r;
    Arith.MulStep(a, n - 1, k);
    assert a * (n - 1) == a * n - a;
  }

  lemma MulAssoc(a: nat, b: nat, c: nat)
    ensures a * b * c == a * (b * c)
  {
  }

  /** i, k and r are digits of b. */
  lemma Digits(b: nat, a: nat, n: nat, i: nat, k: nat, r: nat)
    requires k < n && r < a && b == (i * n + k) * a + r
    ensures a * n > 0 && b / (a * n) == i
  {
    MulPos(a, n);
    var m := k * a + r;
    Arith.MulStep(a, k, n);
    MulAssoc(i, n, a);
    assert (i * n + k) * a == i * n * a + k * a;
    assert b == (a * n) * i + m;
    Arith.DivUnique(b, a * n, i, m);
  }

  /** Splitting a block index below the double indirect node. */
  lemma SplitTwice(b: nat, a: nat, n: nat) returns (i: nat, k: nat, r: nat)
    requires a > 0 && n > 0 && b < a * n * n
    ensures a * n > 0 && i == b / (a * n) < n && k == b / a % n && r == b % a < a && b == (i * n + k) * a + r
  {
    MulAssoc(a, n, n);
    var q;
    q, r := SplitOnce(b, a, n * n);
    i, k := SplitOnce(q, n, n);
    Digits(b, a, n, i, k, r);
  }

  /** The path of a block ends in the direct node whose range holds it, at its place in that range. */
  lemma PathPlace(block: nat, g: Geometry) returns (p: Place, slot: nat)
    requires g.Ok() && block < MaxInodeBlocks(g)
    ensures PlaceOk(p, g.nids) && GetNodePath(block, g).Leads(Number(p, g.nids), slot)
    ensures slot < Width(g, Number(p, g.nids)) && FirstBlock(g, Rank(p, g.nids)) + slot == block
  {
    hide GetNodePath, FirstBlock, Number, Rank, Width;
    if block < g.inInode + 2 * g.perBlock {
      p, slot := NearPlace(block, g);
    } else if block < g.inInode + 2 * g.perBlock + 2 * (g.perBlock * g.nids) {
      p, slot := IndirectPlace(block, g);
    } else {
      p, slot := DoublePlace(block, g);
    }
  }

  // ----- the path goes down the tree

  /** What hangs off a node pointer: a direct node, an indirect one or the double indirect one. */
  datatype Kind = Leaf | Ind | Dind

  function Below(kind: Kind): Kind {
    if kind == Dind then Ind else Leaf
  }

  /** Nodes of such a subtree. */
  function Size(kind: Kind, n: nat): nat {
    match kind
    case Leaf => 1
    case Ind => 1 + n
    case Dind => 1 + n * (1 + n)
  }

  /** The inode's node pointers: two direct, two indirect, one double indirect. */
  function RootKind(slot: nat): Kind {
    if slot <= 2 then Leaf else if slot <= 4 then Ind else Dind
  }

  /** In preorder, a child comes after its parent and after the subtrees of the children before it. */
  function RootNumber(slot: nat, n: nat): nat
    requires slot >= 1
  {
    if slot == 1 then 1 else RootNumber(slot - 1, n) + Size(RootKind(slot - 1), n)
  }

  function ChildNumber(kind: Kind, x: nat, k: nat, n: nat): nat {
    x + 1 + k * Size(Below(kind), n)
  }

  /** From position i, where node x is reached, the path goes down pointer by pointer to a direct node. */
  predicate Descends(kind: Kind, x: nat, path: Path, i: nat, n: nat)
    requires path.Path? && |path.offset| == |path.noffset|
    decreases |path.offset| - i
  {
    && i < |path.noffset| && path.noffset[i] == x
    && if kind == Leaf then i + 1 == |path.noffset|
       else path.offset[i] < n && Descends(Below(kind), ChildNumber(kind, x, path.offset[i], n), path, i + 1, n)
  }

  /** The path starts at the inode and ends there, or leaves it by one of its five node pointers. */
  predicate Walks(path: Path, n: nat) {
    && path.Path? && |path.offset| == |path.noffset| > 0 && path.noffset[0] == 0
    && (|path.offset| == 1 ||
        (1 <= path.offset[0] <= 5 && Descends(RootKind(path.offset[0]), RootNumber(path.offset[0], n), path, 1, n)))
  }

  lemma RootNumbers(n: nat)
    ensures RootNumber(1, n) == 1 && RootNumber(2, n) == 2 && RootNumber(3, n) == 3
    ensures RootNumber(4, n) == 4 + n && RootNumber(5, n) == 5 + 2 * n
  {
    assert RootNumber(2, n) == RootNumber(1, n) + 1;
    assert RootNumber(3, n) == RootNumber(2, n) + 1;
    assert RootNumber(4, n) == RootNumber(3, n) + (1 + n);
    assert RootNumber(5, n) == RootNumber(4, n) + (1 + n);
  }

  /** Every step of the path follows a pointer of the node before to the child with that preorder number. */
  lemma PathWalks(block: nat, g: Geometry)
    requires g.Ok() && block < MaxInodeBlocks(g)
    ensures Walks(GetNodePath(block, g), g.nids)
  {
    hide RootNumber;
    var (a, n) := (g.perBlock, g.nids);
    RootNumbers(n);
    var b3 := block - g.inInode - 2 * a;
    if 0 <= b3 < a * n {
      var k, r := SplitOnce(b3, a, n);
      SingleWalks(3, 3, b3, a, n);
    } else if a * n <= b3 < 2 * (a * n) {
      var k, r := SplitOnce(b3 - a * n, a, n);
      SingleWalks(4, 4 + n, b3 - a * n, a, n);
    } else if b3 >= 2 * (a * n) {
      var b5 := b3 - 2 * (a * n);
      var i, k, r := SplitTwice(b5, a, n);
      DoubleWalks(b5, a, n);
    }
  }

  lemma SingleWalks(root: nat, node: nat, b: nat, a: nat, n: nat)
    requires a > 0 && b / a < n && (root == 3 || root == 4) && node == RootNumber(root, n)
    ensures Walks(SinglePath(root, node, b, a), n)
  {
    hide RootNumber;
    var path := SinglePath(root, node, b, a);
    assert Descends(Leaf, node + 1 + b / a, path, 2, n);
    assert ChildNumber(Ind, node, path.offset[1], n) == node + 1 + b / a;
    assert Descends(Ind, node, path, 1, n);
  }

  lemma DoubleWalks(b: nat, a: nat, n: nat)
    requires a > 0 && n > 0 && a * n > 0 && b / (a * n) < n && 5 + 2 * n == RootNumber(5, n)
    ensures Walks(DoublePath(b, a, n, a * n), n)
  {
    hide RootNumber;
    var path := DoublePath(b, a, n, a * n);
    var i, k := b / (a * n), b / a % n;
    var x := 6 + n * 2 + i * (n + 1);
    assert Descends(Leaf, x + 1 + k, path, 3, n);
    assert ChildNumber(Ind, x, k, n) == x + 1 + k;
    assert Descends(Ind, x, path, 2, n);
    assert ChildNumber(Dind, 5 + 2 * n, i, n) == x by {
      assert i * (1 + n) == i * (n + 1);
    }
    assert Descends(Dind, 5 + 2 * n, path, 1, n);
  }

  lemma IndirectPlace(block: nat, g: Geometry) returns (p: Place, slot: nat)
    requires g.Ok() && g.inInode + 2 * g.perBlock <= block < g.inInode + 2 * g.perBlock + 2 * (g.perBlock * g.nids)
    ensures PlaceOk(p, g.nids) && GetNodePath(block, g).Leads(Number(p, g.nids), slot)
    ensures slot < Width(g, Number(p, g.nids)) && FirstBlock(g, Rank(p, g.nids)) + slot == block
  {
    hide FirstBlock, Rank;
    var ind := g.perBlock * g.nids;
    var b3 := block - g.inInode - 2 * g.perBlock;
    var which := if b3 < ind then 0 else 1;
    var k;
    k, slot := SplitOnce(b3 - which * ind, g.perBlock, g.nids);
    p := Indirect(which, k);
    IndirectBlock(g, which, k, slot);
  }

  lemma DoublePlace(block: nat, g: Geometry) returns (p: Place, slot: nat)
    requires g.Ok() && g.inInode + 2 * g.perBlock + 2 * (g.perBlock * g.nids) <= block < MaxInodeBlocks(g)
    ensures PlaceOk(p, g.nids) && GetNodePath(block, g).Leads(Number(p, g.nids), slot)
    ensures slot < Width(g, Number(p, g.nids)) && FirstBlock(g, Rank(p, g.nids)) + slot == block
  {
    hide FirstBlock, Rank, GetNodePath, DoublePath, MaxInodeBlocks, Number;
    FarPath(block, g);
    var b5 := block - g.inInode - 2 * g.perBlock - 2 * (g.perBlock * g.nids);
    var i, k;
    i, k, slot := SplitTwice(b5, g.perBlock, g.nids);
    p := Double(i, k);
    DoubleBlock(g, i, k, slot);
    DoublePathLeads(b5, g.perBlock, g.nids, g.perBlock * g.nids, i, k);
    DoubleOk(i, k, b5 / g.perBlock, g);
  }

  lemma NearPlace(block: nat, g: Geometry) returns (p: Place, slot: nat)
    requires g.Ok() && block < g.inInode + 2 * g.perBlock
    ensures PlaceOk(p, g.nids) && GetNodePath(block, g).Leads(Number(p, g.nids), slot)
    ensures slot < Width(g, Number(p, g.nids)) && FirstBlock(g, Rank(p, g.nids)) + slot == block
  {
    if block < g.inInode {
      p, slot := InInode, block;
    } else if block < g.inInode + g.perBlock {
      p, slot := Direct(0), block - g.inInode;
    } else {
      p, slot := Direct(1), block - g.inInode - g.perBlock;
    }
  }

  lemma IndirectBlock(g: Geometry, which: nat, k: nat, r: nat)
    requires which < 2
    ensures FirstBlock(g, Rank(Indirect(which, k), g.nids)) + r ==
      g.inInode + 2 * g.perBlock + which * (g.perBlock * g.nids) + k * g.perBlock + r
  {
    var (a, n) := (g.perBlock, g.nids);
    assert (2 + which * n + k) * a == 2 * a + which * n * a + k * a;
    assert which * n * a == which * (a * n);
  }

  lemma DoubleBlock(g: Geometry, i: nat, k: nat, r: nat)
    ensures FirstBlock(g, Rank(Double(i, k), g.nids)) + r ==
      g.inInode + 2 * g.perBlock + 2 * (g.perBlock * g.nids) + (i * g.nids + k) * g.perBlock + r
  {
    var (a, n) := (g.perBlock, g.nids);
    assert (2 + 2 * n + (i * n + k)) * a == 2 * a + 2 * n * a + (i * n + k) * a;
    assert 2 * n * a == 2 * (a * n);
  }

  lemma FarPath(block: nat, g: Geometry)
    requires g.Ok() && g.inInode + 2 * g.perBlock + 2 * (g.perBlock * g.nids) <= block < MaxInodeBlocks(g)
    ensures g.perBlock * g.nids > 0
    ensures block - g.inInode - 2 * g.perBlock - 2 * (g.perBlock * g.nids) < g.perBlock * g.nids * g.nids
    ensures
      var ind := g.perBlock * g.nids;
      GetNodePath(block, g) == DoublePath(block - g.inInode - 2 * g.perBlock - 2 * ind, g.perBlock, g.nids, ind)
  {
    hide DoublePath;
    MulPos(g.perBlock, g.nids);
  }

  lemma DoubleOk(i: nat, k: nat, b: nat, g: Geometry)
    requires g.nids > 0 && i < g.nids && k == b % g.nids
    ensures PlaceOk(Double(i, k), g.nids) && Width(g, Number(Double(i, k), g.nids)) == g.perBlock
  {
    PlaceBounds(Double(i, k), g.nids);
  }

  lemma DoublePathLeads(b: nat, a: nat, n: nat, ind: nat, i: nat, k: nat)
    requires a > 0 && n > 0 && ind > 0 && i == b / ind && k == b / a % n
    ensures DoublePath(b, a, n, ind).Leads(Number(Double(i, k), n), b % a)
  {
  }

  /** get_node_path gives up exactly past the largest file. */
  lemma PathExists(block: nat, g: Geometry)
    requires g.Ok()
    ensures GetNodePath(block, g) == TooBig <==> block >= MaxInodeBlocks(g)
  {
    hide SinglePath, DoublePath;
    PathsArePaths(g);
  }

  lemma PathsArePaths(g: Geometry)
    requires g.Ok()
    ensures forall root: nat, node: nat, b: nat :: SinglePath(root, node, b, g.perBlock).Path?
    ensures forall b: nat, ind: nat :: ind > 0 ==> DoublePath(b, g.perBlock, g.nids, ind).Path?
  {
  }

  /** Down and back: a block's direct node starts where the block's slot says. */
  lemma PathThenStart(block: nat, g: Geometry) returns (node: nat, slot: nat)
    requires g.Ok() && block < MaxInodeBlocks(g)
    ensures GetNodePath(block, g).Leads(node, slot) && IsDirectNode(node, g.nids)
    ensures slot < Width(g, node) && StartBidx(node, g) + slot == block
  {
    hide GetNodePath, StartBidx, FirstBlock, Number, Rank, MaxInodeBlocks;
    var p;
    p, slot := PathPlace(block, g);
    node := Number(p, g.nids);
    StartIsFirstBlock(p, g);
  }

  /** Back and down: every slot of every direct node is found again from its block index. */
  lemma StartThenPath(p: Place, slot: nat, g: Geometry)
    requires g.Ok() && PlaceOk(p, g.nids) && slot < Width(g, Number(p, g.nids))
    ensures
      var node := Number(p, g.nids);
      IsDirectNode(node, g.nids) && GetNodePath(StartBidx(node, g) + slot, g).Leads(node, slot)
  {
    hide GetNodePath, StartBidx, FirstBlock, Number, Rank, MaxInodeBlocks;
    var n := g.nids;
    StartIsFirstBlock(p, g);
    RankBound(p, n);
    RankZero(p, n);
    FirstBlockNext(g, Rank(p, n));
    RanksApart(g, Rank(p, n) + 1, Total(n));
    MaxIsEnd(g);
    var block := StartBidx(Number(p, n), g) + slot;
    var p', slot' := PathPlace(block, g);
    RankZero(p', n);
    FirstBlockNext(g, Rank(p', n));
    SameOrder(p, p', n);
    SameOrder(p', p, n);
    if Rank(p, n) < Rank(p', n) {
      RanksApart(g, Rank(p, n) + 1, Rank(p', n));
    } else if Rank(p', n) < Rank(p, n) {
      RanksApart(g, Rank(p', n) + 1, Rank(p, n));
    }
  }
}
