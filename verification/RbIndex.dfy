/**
 Searching the extent tree.

 A red-black tree is a search tree in some shape; rebalancing changes the shape and keeps the
 in-order sequence.  The lookups below descend a tree of any shape, and their contracts speak
 only of its in-order sequence.  A node is named by its rank in that sequence, so rb_prev and
 rb_next are the ranks one below and one above.
 */
module RbIndex {
  import opened Prelude
  import opened ExtentList

  /** struct extent_node: an extent and the node's identity. */
  datatype Node = Node(id: nat, ei: Extent)

  datatype Shape = Leaf | Fork(left: Shape, node: Node, right: Shape)

  function InOrder(t: Shape): seq<Node> {
    match t
    case Leaf => []
    case Fork(l, n, r) => InOrder(l) + [n] + InOrder(r)
  }

  function Extents(nodes: seq<Node>): seq<Extent> {
    seq(|nodes|, i requires 0 <= i < |nodes| => nodes[i].ei)
  }

  function Prev(k: nat): Option<nat> {
    if k > 0 then Some(k - 1) else None
  }

  function Next(k: nat, n: nat): Option<nat> {
    if k + 1 < n then Some(k + 1) else None
  }

  /** Some arrangement of the nodes; which one does not matter to any lookup. */
  function Arrange(nodes: seq<Node>): (t: Shape)
    ensures InOrder(t) == nodes
  {
    if nodes == [] then Leaf
    else
      var mid := |nodes| / 2;
      assert nodes == nodes[..mid] + [nodes[mid]] + nodes[mid + 1..];
      Fork(Arrange(nodes[..mid]), nodes[mid], Arrange(nodes[mid + 1..]))
  }

  /** A subtree holding ranks lo..hi, everything before it below `ofs` and everything after above. */
  ghost predicate Narrowed(nodes: seq<Node>, sub: Shape, lo: nat, hi: nat, ofs: nat) {
    && lo <= hi <= |nodes|
    && InOrder(sub) == nodes[lo..hi]
    && (forall i :: 0 <= i < lo ==> End(nodes[i].ei) <= ofs)
    && (forall i :: hi <= i < |nodes| ==> ofs < nodes[i].ei.fofs)
  }

  lemma Subranges(nodes: seq<Node>, sub: Shape, lo: nat, hi: nat)
    requires lo <= hi <= |nodes| && InOrder(sub) == nodes[lo..hi] && sub.Fork?
    ensures
      var k := lo + |InOrder(sub.left)|;
      && lo <= k < hi && nodes[k] == sub.node
      && InOrder(sub.left) == nodes[lo..k]
      && InOrder(sub.right) == nodes[k + 1..hi]
  {
    var a, b := InOrder(sub.left), InOrder(sub.right);
    assert InOrder(sub) == a + [sub.node] + b;
    hide InOrder;
    JoinedSlices(nodes, lo, hi, a, sub.node, b);
  }

  lemma JoinedSlices(nodes: seq<Node>, lo: nat, hi: nat, a: seq<Node>, x: Node, b: seq<Node>)
    requires lo <= hi <= |nodes| && a + [x] + b == nodes[lo..hi]
    ensures var k := lo + |a|; lo <= k < hi && nodes[k] == x && a == nodes[lo..k] && b == nodes[k + 1..hi]
  {
    var w := nodes[lo..hi];
    assert a == w[..|a|] && x == w[|a|] && b == w[|a| + 1..];
  }

  lemma OrderedNodes(nodes: seq<Node>, i: nat, j: nat)
    requires Ordered(Extents(nodes)) && i < j < |nodes|
    ensures nodes[i].ei.len > 0 && nodes[j].ei.len > 0 && End(nodes[i].ei) <= nodes[j].ei.fofs
  {
    var xs := Extents(nodes);
    assert xs[i] == nodes[i].ei && xs[j] == nodes[j].ei;
  }

  /** One step down keeps the subtree narrowed. */
  lemma Descend(nodes: seq<Node>, sub: Shape, lo: nat, hi: nat, ofs: nat)
    requires Ordered(Extents(nodes)) && Narrowed(nodes, sub, lo, hi, ofs) && sub.Fork?
    ensures
      var k := lo + |InOrder(sub.left)|;
      && lo <= k < hi <= |nodes| && nodes[k] == sub.node
      && (ofs < sub.node.ei.fofs ==> Narrowed(nodes, sub.left, lo, k, ofs))
      && (End(sub.node.ei) <= ofs ==> Narrowed(nodes, sub.right, k + 1, hi, ofs))
      && (Covers(sub.node.ei, ofs) ==> Rank(Extents(nodes), ofs) == k)
  {
    Subranges(nodes, sub, lo, hi);
    var k := lo + |InOrder(sub.left)|;
    forall i | 0 <= i < |nodes|
      ensures i < k ==> End(nodes[i].ei) <= nodes[k].ei.fofs
      ensures k < i ==> End(nodes[k].ei) <= nodes[i].ei.fofs
    {
      if i < k {
        OrderedNodes(nodes, i, k);
      } else if k < i {
        OrderedNodes(nodes, k, i);
      }
    }
    if Covers(sub.node.ei, ofs) {
      RankIs(nodes, ofs, k);
    }
  }

  lemma RankIs(nodes: seq<Node>, ofs: nat, k: nat)
    requires k <= |nodes|
    requires forall i :: 0 <= i < k ==> End(nodes[i].ei) <= ofs
    requires k < |nodes| ==> ofs < End(nodes[k].ei)
    ensures Rank(Extents(nodes), ofs) == k
  {
    var xs := Extents(nodes);
    var r := Rank(xs, ofs);
    assert forall i :: 0 <= i < |nodes| ==> xs[i] == nodes[i].ei;
  }

  /** Where an empty subtree is reached is the rank of `ofs`. */
  lemma Bottom(nodes: seq<Node>, lo: nat, hi: nat, ofs: nat)
    requires Narrowed(nodes, Leaf, lo, hi, ofs)
    ensures lo == hi == Rank(Extents(nodes), ofs)
  {
    assert |nodes[lo..hi]| == 0;
    RankIs(nodes, ofs, lo);
  }

  /** __lookup_rb_tree_slow. */
  method LookupSlow(t: Shape, ofs: nat) returns (hit: Option<nat>)
    requires Ordered(Extents(InOrder(t)))
    ensures
      var nodes := InOrder(t);
      var k := Rank(Extents(nodes), ofs);
      hit == if k < |nodes| && Covers(nodes[k].ei, ofs) then Some(k) else None
  {
    ghost var nodes := InOrder(t);
    var sub := t;
    var lo: nat := 0;
    ghost var hi: nat := |nodes|;
    while sub.Fork?
      invariant Narrowed(nodes, sub, lo, hi, ofs)
      decreases sub
    {
      Descend(nodes, sub, lo, hi, ofs);
      var k := lo + |InOrder(sub.left)|;
      if ofs < sub.node.ei.fofs {
        hi := k;
        sub := sub.left;
      } else if ofs >= End(sub.node.ei) {
        lo := k + 1;
        sub := sub.right;
      } else {
        return Some(k);
      }
    }
    Bottom(nodes, lo, hi, ofs);
    return None;
  }

  lemma NarrowedAtStart(t: Shape, ofs: nat)
    ensures Narrowed(InOrder(t), t, 0, |InOrder(t)|, ofs)
  {
  }

  lemma FoundCovers(nodes: seq<Node>, k: nat, ofs: nat)
    requires k < |nodes| && Covers(nodes[k].ei, ofs)
    ensures CoversPage(Extents(nodes), ofs)
  {
    assert Covers(Extents(nodes)[k], ofs);
  }

  lemma BottomCoversNone(nodes: seq<Node>, lo: nat, hi: nat, ofs: nat)
    requires Narrowed(nodes, Leaf, lo, hi, ofs)
    ensures !CoversPage(Extents(nodes), ofs)
  {
    Bottom(nodes, lo, hi, ofs);
    forall i | 0 <= i < |nodes| ensures !Covers(Extents(nodes)[i], ofs) {
      assert Extents(nodes)[i] == nodes[i].ei;
    }
  }

  /**
   f2fs_lookup_rb_tree_for_insert: the rank a new node at `ofs` takes.  `bug` is the f2fs_bug_on
   that fires when a node already covers `ofs`.
   */
  method LookupForInsert(t: Shape, ofs: nat) returns (rank: nat, leftmost: bool, bug: bool)
    requires Ordered(Extents(InOrder(t)))
    ensures bug <==> CoversPage(Extents(InOrder(t)), ofs)
    ensures !bug ==> rank == Rank(Extents(InOrder(t)), ofs) && (leftmost <==> rank == 0)
  {
    hide InOrder, Ordered, Rank, Narrowed, CoversPage, Extents;
    ghost var nodes := InOrder(t);
    var sub := t;
    var lo: nat := 0;
    ghost var hi: nat := |nodes|;
    NarrowedAtStart(t, ofs);
    leftmost := true;
    while sub.Fork?
      invariant Narrowed(nodes, sub, lo, hi, ofs)
      invariant leftmost <==> lo == 0
      decreases sub
    {
      Descend(nodes, sub, lo, hi, ofs);
      var k := lo + |InOrder(sub.left)|;
      if ofs < sub.node.ei.fofs {
        hi := k;
        sub := sub.left;
      } else if ofs >= End(sub.node.ei) {
        lo := k + 1;
        sub := sub.right;
        leftmost := false;
      } else {
        FoundCovers(nodes, k, ofs);
        return lo, leftmost, true;
      }
    }
    Bottom(nodes, lo, hi, ofs);
    BottomCoversNone(nodes, lo, hi, ofs);
    return lo, leftmost, false;
  }

  /** What f2fs_lookup_rb_tree_ret hands back, as ranks; `hint` is the insert position. */
  datatype Found = Found(entry: Option<nat>, prev: Option<nat>, next: Option<nat>, hint: Option<nat>)

  /** The neighbours of `ofs`, read off the in-order sequence. */
  function Neighbours(xs: seq<Extent>, ofs: nat, force: bool): Found {
    var k := Rank(xs, ofs);
    if k < |xs| && Covers(xs[k], ofs) then
      Found(Some(k),
            if ofs == xs[k].fofs || force then Prev(k) else None,
            if ofs == End(xs[k]) - 1 || force then Next(k, |xs|) else None,
            None)
    else
      Found(None, Prev(k), if k < |xs| then Some(k) else None, if xs == [] then None else Some(k))
  }

  /** The lookup_neighbors label: the entry at rank k covers `ofs`. */
  function Beside(nodes: seq<Node>, k: nat, ofs: nat, force: bool): Found
    requires k < |nodes|
  {
    var re := nodes[k].ei;
    Found(Some(k),
          if ofs == re.fofs || force then Prev(k) else None,
          if ofs == End(re) - 1 || force then Next(k, |nodes|) else None,
          None)
  }

  lemma BesideIsNeighbours(nodes: seq<Node>, k: nat, ofs: nat, force: bool)
    requires Ordered(Extents(nodes)) && k < |nodes| && Covers(nodes[k].ei, ofs)
    ensures Beside(nodes, k, ofs, force) == Neighbours(Extents(nodes), ofs, force)
  {
    forall i | 0 <= i < k ensures End(nodes[i].ei) <= ofs {
      OrderedNodes(nodes, i, k);
    }
    RankIs(nodes, ofs, k);
  }

  /** No entry covers `ofs`: the neighbours are read off the last node on the way down. */
  function Between(nodes: seq<Node>, parent: nat, ofs: nat, lo: nat): Found
    requires parent < |nodes|
  {
    var re := nodes[parent].ei;
    Found(None,
          if ofs < re.fofs then Prev(parent) else Some(parent),
          if ofs > re.fofs then Next(parent, |nodes|) else Some(parent),
          Some(lo))
  }

  lemma BetweenIsNeighbours(nodes: seq<Node>, parent: nat, ofs: nat, lo: nat, hi: nat, force: bool)
    requires Ordered(Extents(nodes)) && Narrowed(nodes, Leaf, lo, hi, ofs)
    requires parent < |nodes| && ((lo > 0 && parent == lo - 1) || parent == hi)
    ensures Between(nodes, parent, ofs, lo) == Neighbours(Extents(nodes), ofs, force)
  {
    Bottom(nodes, lo, hi, ofs);
    assert nodes[parent].ei == Extents(nodes)[parent];
  }

  lemma LeafHasNone(t: Shape, ofs: nat, force: bool)
    ensures t.Leaf? ==> Neighbours(Extents(InOrder(t)), ofs, force) == Found(None, None, None, None)
  {
  }

  /** f2fs_lookup_rb_tree_ret. */
  method LookupRet(t: Shape, cached: Option<nat>, ofs: nat, force: bool) returns (r: Found, leftmost: bool)
    requires Ordered(Extents(InOrder(t)))
    requires cached.Some? ==> cached.value < |InOrder(t)|
    ensures r == Neighbours(Extents(InOrder(t)), ofs, force)
    ensures r.hint.Some? ==> (leftmost <==> r.hint.value == 0)
  {
    hide Ordered, Rank, Narrowed, Extents, Neighbours, InOrder;
    NarrowedAtStart(t, ofs);
    LeafHasNone(t, ofs, force);
    var nodes := InOrder(t);
    if t.Leaf? {
      return Found(None, None, None, None), false;
    }
    if cached.Some? && Covers(nodes[cached.value].ei, ofs) {
      BesideIsNeighbours(nodes, cached.value, ofs, force);
      return Beside(nodes, cached.value, ofs, force), false;
    }
    leftmost := true;
    var sub := t;
    var lo: nat := 0;
    var parent: Option<nat> := None;
    ghost var hi: nat := |nodes|;
    while sub.Fork?
      invariant Narrowed(nodes, sub, lo, hi, ofs)
      invariant leftmost <==> lo == 0
      invariant lo <= hi <= |nodes|
      invariant if parent.None? then sub == t else
        (lo > 0 && parent.value == lo - 1) || (parent.value == hi < |nodes|)
      decreases sub
    {
      Descend(nodes, sub, lo, hi, ofs);
      var k := lo + |InOrder(sub.left)|;
      parent := Some(k);
      if ofs < sub.node.ei.fofs {
        hi := k;
        sub := sub.left;
      } else if ofs >= End(sub.node.ei) {
        lo := k + 1;
        sub := sub.right;
        leftmost := false;
      } else {
        BesideIsNeighbours(nodes, k, ofs, force);
        return Beside(nodes, k, ofs, force), leftmost;
      }
    }
    BetweenIsNeighbours(nodes, parent.value, ofs, lo, hi, force);
    r := Between(nodes, parent.value, ofs, lo);
  }
}
