/**
 The extent cache: per-inode extent trees with a `largest` and a `cached_en` shortcut, and one
 LRU list over the nodes of all trees.

 Each method is a critical section of the source.  Whatever sequence of updates, lookups,
 shrinks and drops is run, every hit agrees with the file's block map.
 */
module ExtentCache {
  import opened Prelude
  import opened ExtentList
  import opened RbIndex
  import ExtentUpdate

  type Ino = nat

  /** struct extent_tree and the inode's FI_NO_EXTENT flag; `nodes` is the tree in order. */
  datatype Tree = Tree(
    nodes: seq<Node>,
    nodeCnt: nat,
    cached: Option<nat>,
    largest: Extent,
    largestUpdated: bool,
    noExtent: bool
  )

  /** A node on the global LRU list. */
  datatype Ref = Ref(ino: Ino, id: nat)

  predicate HasId(nodes: seq<Node>, id: nat) {
    exists i :: 0 <= i < |nodes| && nodes[i].id == id
  }

  // ----- lists without duplicates

  /** list_del. */
  function Without<T(==)>(s: seq<T>, x: T): (r: seq<T>)
    ensures forall y :: y in r ==> y in s
    ensures forall y :: y in s && y != x ==> y in r
  {
    if s == [] then []
    else if s[0] == x then s[1..]
    else [s[0]] + Without(s[1..], x)
  }

  lemma {:induction false} WithoutNoDup<T>(s: seq<T>, x: T)
    requires NoDup(s)
    ensures NoDup(Without(s, x)) && x !in Without(s, x)
  {
    if s != [] {
      if s[0] == x {
        assert forall j :: 1 <= j < |s| ==> s[j] != x;
      } else {
        WithoutNoDup(s[1..], x);
        assert s[0] !in s[1..];
      }
    }
  }

  lemma AppendNoDup<T>(s: seq<T>, x: T)
    requires NoDup(s) && x !in s
    ensures NoDup(s + [x])
  {
  }

  // ----- the working state of one tree and the list

  datatype Work = Work(t: Tree, lru: seq<Ref>, nextId: nat)

  /** The list and the next identity when the critical section was entered. */
  datatype Base = Base(lru: seq<Ref>, nextId: nat)

  ghost predicate TreeInv(t: Tree, nextId: nat) {
    && Ordered(Extents(t.nodes))
    && (forall i, j :: 0 <= i < j < |t.nodes| ==> t.nodes[i].id != t.nodes[j].id)
    && (forall i :: 0 <= i < |t.nodes| ==> t.nodes[i].id < nextId)
    && t.nodeCnt == |t.nodes|
    && (t.cached.Some? ==> HasId(t.nodes, t.cached.value))
  }

  /** The nodes of other trees, in the order of the list. */
  function Others(lru: seq<Ref>, ino: Ino): seq<Ref> {
    if lru == [] then []
    else Others(lru[..|lru| - 1], ino) + if lru[|lru| - 1].ino == ino then [] else [lru[|lru| - 1]]
  }

  lemma {:induction false} OthersAre(lru: seq<Ref>, ino: Ino)
    ensures forall r :: r in Others(lru, ino) <==> r in lru && r.ino != ino
  {
    if lru != [] {
      OthersAre(lru[..|lru| - 1], ino);
      assert lru == lru[..|lru| - 1] + [lru[|lru| - 1]];
    }
  }

  lemma OthersAdd(lru: seq<Ref>, ino: Ino, id: nat)
    ensures Others(lru + [Ref(ino, id)], ino) == Others(lru, ino)
  {
    assert (lru + [Ref(ino, id)])[..|lru|] == lru;
  }

  lemma {:induction false} OthersJoin(a: seq<Ref>, b: seq<Ref>, ino: Ino)
    ensures Others(a + b, ino) == Others(a, ino) + Others(b, ino)
  {
    if b == [] {
      assert a + b == a;
    } else {
      assert (a + b)[..|a + b| - 1] == a + b[..|b| - 1];
      OthersJoin(a, b[..|b| - 1], ino);
    }
  }

  lemma {:induction false} OthersDel(lru: seq<Ref>, ino: Ino, id: nat)
    ensures Others(Without(lru, Ref(ino, id)), ino) == Others(lru, ino)
  {
    if lru != [] {
      var head, rest := [lru[0]], lru[1..];
      assert lru == head + rest;
      OthersJoin(head, rest, ino);
      if lru[0] == Ref(ino, id) {
        assert head == [] + [Ref(ino, id)];
        OthersAdd([], ino, id);
      } else {
        OthersDel(rest, ino, id);
        OthersJoin(head, Without(rest, Ref(ino, id)), ino);
      }
    }
  }

  /** The list holds exactly the nodes of this tree; the nodes of other trees are on it in the same order as before. */
  ghost predicate ListInv(w: Work, ino: Ino, base: Base) {
    && base.nextId <= w.nextId
    && NoDup(w.lru)
    && (forall id :: Ref(ino, id) in w.lru <==> HasId(w.t.nodes, id))
    && Others(w.lru, ino) == Others(base.lru, ino)
  }

  ghost predicate WorkInv(w: Work, ino: Ino, base: Base) {
    TreeInv(w.t, w.nextId) && ListInv(w, ino, base)
  }

  // ----- primitive steps

  function GrowTree(t: Tree, e: Extent): Tree {
    if e.len > t.largest.len then t.(largest := e, largestUpdated := true) else t
  }

  /** Change the extent of the node at rank k in place. */
  function SetExtent(w: Work, k: nat, e: Extent): Work
    requires k < |w.t.nodes|
  {
    w.(t := w.t.(nodes := w.t.nodes[k := w.t.nodes[k].(ei := e)]))
  }

  /** __insert_extent_tree at a known rank, when the allocation succeeds. */
  function InsertNode(w: Work, ino: Ino, k: nat, e: Extent): Work
    requires k <= |w.t.nodes|
  {
    var nodes := w.t.nodes[..k] + [Node(w.nextId, e)] + w.t.nodes[k..];
    var t := GrowTree(w.t.(nodes := nodes, nodeCnt := w.t.nodeCnt + 1), e).(cached := Some(w.nextId));
    Work(t, w.lru + [Ref(ino, w.nextId)], w.nextId + 1)
  }

  /** __release_extent_node. */
  function ReleaseNode(w: Work, ino: Ino, k: nat): Work
    requires k < |w.t.nodes| && w.t.nodeCnt > 0
  {
    var id := w.t.nodes[k].id;
    var t := w.t.(nodes := w.t.nodes[..k] + w.t.nodes[k + 1..], nodeCnt := w.t.nodeCnt - 1,
                  cached := if w.t.cached == Some(id) then None else w.t.cached);
    w.(t := t, lru := Without(w.lru, Ref(ino, id)))
  }

  /** list_move_tail and cached_en, for a node that is on the list. */
  function TouchNode(w: Work, ino: Ino, k: nat): Work
    requires k < |w.t.nodes|
  {
    var ref := Ref(ino, w.t.nodes[k].id);
    if ref in w.lru then
      w.(lru := Without(w.lru, ref) + [ref], t := w.t.(cached := Some(ref.id)))
    else w
  }

  lemma SetExtentInv(w: Work, ino: Ino, base: Base, k: nat, e: Extent)
    requires WorkInv(w, ino, base) && k < |w.t.nodes|
    requires Ordered(Extents(w.t.nodes)[k := e])
    ensures WorkInv(SetExtent(w, k, e), ino, base)
    ensures Extents(SetExtent(w, k, e).t.nodes) == Extents(w.t.nodes)[k := e]
  {
    var w' := SetExtent(w, k, e);
    assert Extents(w'.t.nodes) == Extents(w.t.nodes)[k := e];
    assert forall i :: 0 <= i < |w.t.nodes| ==> w'.t.nodes[i].id == w.t.nodes[i].id;
    forall id ensures HasId(w'.t.nodes, id) <==> HasId(w.t.nodes, id) {
      if HasId(w.t.nodes, id) {
        var i :| 0 <= i < |w.t.nodes| && w.t.nodes[i].id == id;
        assert w'.t.nodes[i].id == id;
      }
    }
  }

  lemma InsertNodeTree(w: Work, ino: Ino, k: nat, e: Extent)
    requires TreeInv(w.t, w.nextId) && k <= |w.t.nodes|
    requires Ordered(Extents(w.t.nodes)[..k] + [e] + Extents(w.t.nodes)[k..])
    ensures TreeInv(InsertNode(w, ino, k, e).t, w.nextId + 1)
    ensures Extents(InsertNode(w, ino, k, e).t.nodes) == Extents(w.t.nodes)[..k] + [e] + Extents(w.t.nodes)[k..]
  {
    hide Ordered, Extents;
    InsertedExtents(w.t.nodes, k, Node(w.nextId, e));
    var nodes := InsertNode(w, ino, k, e).t.nodes;
    InsertedAt(w.t.nodes, nodes, k, Node(w.nextId, e));
    assert forall i, j :: 0 <= i < j < |nodes| ==> nodes[i].id != nodes[j].id;
  }

  lemma InsertedAt(nodes: seq<Node>, nodes': seq<Node>, k: nat, n: Node)
    requires k <= |nodes| && nodes' == nodes[..k] + [n] + nodes[k..]
    ensures |nodes'| == |nodes| + 1 && nodes'[k] == n
    ensures forall i :: 0 <= i < k ==> nodes'[i] == nodes[i]
    ensures forall i :: k < i < |nodes'| ==> nodes'[i] == nodes[i - 1]
  {
  }

  lemma InsertedExtents(nodes: seq<Node>, k: nat, n: Node)
    requires k <= |nodes|
    ensures |Extents(nodes)| == |nodes|
    ensures Extents(nodes[..k] + [n] + nodes[k..]) == Extents(nodes)[..k] + [n.ei] + Extents(nodes)[k..]
  {
  }

  lemma InsertNodeInv(w: Work, ino: Ino, base: Base, k: nat, e: Extent)
    requires WorkInv(w, ino, base) && k <= |w.t.nodes|
    requires Ordered(Extents(w.t.nodes)[..k] + [e] + Extents(w.t.nodes)[k..])
    ensures WorkInv(InsertNode(w, ino, k, e), ino, base)
    ensures Extents(InsertNode(w, ino, k, e).t.nodes) == Extents(w.t.nodes)[..k] + [e] + Extents(w.t.nodes)[k..]
  {
    InsertNodeTree(w, ino, k, e);
    var w' := InsertNode(w, ino, k, e);
    AppendNoDup(w.lru, Ref(ino, w.nextId));
    OthersAdd(w.lru, ino, w.nextId);
    forall id ensures HasId(w'.t.nodes, id) <==> HasId(w.t.nodes, id) || id == w.nextId {
      if HasId(w.t.nodes, id) {
        var i :| 0 <= i < |w.t.nodes| && w.t.nodes[i].id == id;
        assert w'.t.nodes[if i < k then i else i + 1].id == id;
      }
      assert w'.t.nodes[k].id == w.nextId;
    }
  }

  /** The nodes without the one at rank k. */
  lemma ReleasedAt(nodes: seq<Node>, nodes': seq<Node>, k: nat)
    requires k < |nodes| && nodes' == nodes[..k] + nodes[k + 1..]
    ensures |nodes'| == |nodes| - 1 && |Extents(nodes)| == |nodes|
    ensures forall i :: 0 <= i < |nodes'| ==> nodes'[i] == if i < k then nodes[i] else nodes[i + 1]
    ensures forall i :: 0 <= i < |nodes| && i != k ==> nodes[i] == nodes'[if i < k then i else i - 1]
    ensures Extents(nodes') == Spliced(Extents(nodes), k, [])
  {
  }

  lemma OrderedWithout(xs: seq<Extent>, k: nat)
    requires Ordered(xs) && k < |xs|
    ensures Ordered(Spliced(xs, k, []))
  {
    var ys := Spliced(xs, k, []);
    assert forall i :: 0 <= i < |ys| ==> ys[i] == if i < k then xs[i] else xs[i + 1];
  }

  lemma ReleaseNodeTree(w: Work, ino: Ino, k: nat)
    requires TreeInv(w.t, w.nextId) && k < |w.t.nodes|
    ensures TreeInv(ReleaseNode(w, ino, k).t, w.nextId)
    ensures Extents(ReleaseNode(w, ino, k).t.nodes) == Spliced(Extents(w.t.nodes), k, [])
    ensures forall id :: HasId(ReleaseNode(w, ino, k).t.nodes, id) <==> HasId(w.t.nodes, id) && id != w.t.nodes[k].id
  {
    hide Ordered, Extents, Spliced;
    var nodes' := ReleaseNode(w, ino, k).t.nodes;
    ReleasedAt(w.t.nodes, nodes', k);
    OrderedWithout(Extents(w.t.nodes), k);
    forall id ensures HasId(nodes', id) <==> HasId(w.t.nodes, id) && id != w.t.nodes[k].id {
      if HasId(w.t.nodes, id) && id != w.t.nodes[k].id {
        var i :| 0 <= i < |w.t.nodes| && w.t.nodes[i].id == id;
        assert nodes'[if i < k then i else i - 1].id == id;
      }
    }
  }

  lemma ReleaseNodeInv(w: Work, ino: Ino, base: Base, k: nat)
    requires WorkInv(w, ino, base) && k < |w.t.nodes|
    ensures WorkInv(ReleaseNode(w, ino, k), ino, base)
    ensures Extents(ReleaseNode(w, ino, k).t.nodes) == Spliced(Extents(w.t.nodes), k, [])
    // only the released node stops being the cached one
    ensures ReleaseNode(w, ino, k).t.cached == if w.t.cached == Some(w.t.nodes[k].id) then None else w.t.cached
    // the f2fs_bug_on of __release_extent_node: the node is on the list
    ensures Ref(ino, w.t.nodes[k].id) in w.lru
  {
    hide TreeInv, HasId, Extents, Spliced, Others;
    ReleaseNodeTree(w, ino, k);
    IsThere(w.t.nodes, k);
    WithoutNoDup(w.lru, Ref(ino, w.t.nodes[k].id));
    OthersDel(w.lru, ino, w.t.nodes[k].id);
  }

  lemma IsThere(nodes: seq<Node>, k: nat)
    requires k < |nodes|
    ensures HasId(nodes, nodes[k].id)
  {
  }

  lemma TouchNodeInv(w: Work, ino: Ino, base: Base, k: nat)
    requires WorkInv(w, ino, base) && k < |w.t.nodes|
    ensures WorkInv(TouchNode(w, ino, k), ino, base)
    ensures TouchNode(w, ino, k).t.nodes == w.t.nodes
    ensures TouchNode(w, ino, k).t.cached == Some(w.t.nodes[k].id)
    ensures TouchNode(w, ino, k).lru == Without(w.lru, Ref(ino, w.t.nodes[k].id)) + [Ref(ino, w.t.nodes[k].id)]
  {
    var ref := Ref(ino, w.t.nodes[k].id);
    assert ref in w.lru;
    WithoutNoDup(w.lru, ref);
    AppendNoDup(Without(w.lru, ref), ref);
    OthersDel(w.lru, ino, ref.id);
    OthersAdd(Without(w.lru, ref), ino, ref.id);
  }

  // ----- the critical steps of an update

  /** `largest` is replaced by longer extents only, and that sets its dirty mark. */
  predicate Marked(before: Tree, after: Tree) {
    && (after.largest == before.largest || after.largest.len > before.largest.len)
    && after.largestUpdated == (before.largestUpdated || after.largest != before.largest)
  }

  /** The most recently used node of all is the cached one of this tree and holds `e`. */
  ghost predicate Recent(t: Tree, lru: seq<Ref>, ino: Ino, e: Extent) {
    && lru != [] && lru[|lru| - 1].ino == ino
    && t.cached == Some(lru[|lru| - 1].id)
    && Node(lru[|lru| - 1].id, e) in t.nodes
  }

  /** __insert_extent_tree; the position is searched for unless a valid hint is given. */
  method InsertTree(w: Work, ino: Ino, e: Extent, hint: Option<nat>, alloc: bool, ghost base: Base)
    returns (w': Work, inserted: bool)
    requires WorkInv(w, ino, base) && e.len > 0
    requires AllDisjoint(Extents(w.t.nodes), e.fofs, End(e))
    requires hint.Some? ==> hint.value == Rank(Extents(w.t.nodes), e.fofs)
    ensures WorkInv(w', ino, base) && Marked(w.t, w'.t)
    ensures inserted == alloc
    ensures !alloc ==> w' == w
    ensures alloc ==>
      var xs := Extents(w.t.nodes);
      var p := Rank(xs, e.fofs);
      && Extents(w'.t.nodes) == xs[..p] + [e] + xs[p..]
      && w'.t.largest == ExtentUpdate.Grow(w.t.largest, e)
      && w'.t.noExtent == w.t.noExtent
      && Recent(w'.t, w'.lru, ino, e)
  {
    hide TreeInv, ListInv, Ordered, Rank, InsertNode, Recent, Arrange, InOrder;
    ghost var xs := Extents(w.t.nodes);
    InvOrdered(w);
    var p;
    if hint.Some? {
      p := hint.value;
    } else {
      var bug, leftmost;
      p, leftmost, bug := LookupForInsert(Arrange(w.t.nodes), e.fofs);
      assert !bug by {
        forall i | 0 <= i < |xs| ensures !Covers(xs[i], e.fofs) {
          assert Disjoint(xs[i], e.fofs, End(e));
        }
      }
    }
    if !alloc {
      return w, false;
    }
    RankOfGap(xs, e);
    ReplaceOrdered(xs, p, p, e);
    InsertNodeInv(w, ino, base, p, e);
    InsertNodeFacts(w, ino, p, e);
    w', inserted := InsertNode(w, ino, p, e), true;
  }

  lemma InsertNodeFacts(w: Work, ino: Ino, k: nat, e: Extent)
    requires k <= |w.t.nodes|
    ensures
      var w' := InsertNode(w, ino, k, e);
      && Recent(w'.t, w'.lru, ino, e) && Marked(w.t, w'.t)
      && w'.t.largest == ExtentUpdate.Grow(w.t.largest, e) && w'.t.noExtent == w.t.noExtent
  {
    var w' := InsertNode(w, ino, k, e);
    assert w'.t.nodes[k] == Node(w.nextId, e);
  }

  lemma GrowTreeInv(w: Work, ino: Ino, base: Base, e: Extent)
    requires WorkInv(w, ino, base)
    ensures
      var w' := w.(t := GrowTree(w.t, e));
      WorkInv(w', ino, base) && w'.t.nodes == w.t.nodes && Marked(w.t, w'.t)
  {
  }

  /** What is left of the extents when the one at rank k is replaced by `pieces`. */
  function Spliced(xs: seq<Extent>, k: nat, pieces: seq<Extent>): seq<Extent>
    requires k < |xs|
  {
    xs[..k] + pieces + xs[k + 1..]
  }

  /** Shrink the node at rank k in place and offer it to `largest`. */
  method ShrinkNode(w: Work, ino: Ino, k: nat, e: Extent, ghost base: Base) returns (w': Work)
    requires WorkInv(w, ino, base) && k < |w.t.nodes| && e.len > 0
    requires w.t.nodes[k].ei.fofs <= e.fofs && End(e) <= End(w.t.nodes[k].ei)
    ensures WorkInv(w', ino, base) && w'.t.(nodes := w.t.nodes) == w.t
    ensures Extents(w'.t.nodes) == Extents(w.t.nodes)[k := e] == Spliced(Extents(w.t.nodes), k, [e])
  {
    assert Extents(w.t.nodes)[k := e] == Spliced(Extents(w.t.nodes), k, [e]);
    assert Extents(w.t.nodes)[k] == w.t.nodes[k].ei;
    CutOrdered(Extents(w.t.nodes), k, e);
    SetExtentInv(w, ino, base, k, e);
    w' := SetExtent(w, k, e);
  }

  /** The node at rank k has been cut to its left part; its right part becomes a node of its own. */
  method InsertRight(w: Work, ino: Ino, k: nat, dei: Extent, pos: nat, end: nat, alloc: bool,
                     ghost base: Base, ghost xs: seq<Extent>)
    returns (w': Work)
    requires WorkInv(w, ino, base) && pos <= end
    requires Ordered(xs) && k < |xs| && xs[k] == dei && dei.fofs <= pos && end < End(dei)
    requires Extents(w.t.nodes) == xs[k := LeftPart(dei, pos)]
    ensures WorkInv(w', ino, base) && Marked(w.t, w'.t) && w'.t.noExtent == w.t.noExtent
    ensures Extents(w'.t.nodes) ==
      Spliced(xs, k, if alloc then [LeftPart(dei, pos), RightPart(dei, end)] else [LeftPart(dei, pos)])
    ensures w'.t.largest == if alloc then ExtentUpdate.Grow(w.t.largest, RightPart(dei, end)) else w.t.largest
  {
    hide TreeInv, ListInv, Ordered, Rank, AllDisjoint, Extents;
    RightRank(xs, k, pos, end);
    ghost var ys := Extents(w.t.nodes);
    assert ys[..k + 1] == xs[..k] + [LeftPart(dei, pos)] && ys[k + 1..] == xs[k + 1..];
    var inserted;
    w', inserted := InsertTree(w, ino, RightPart(dei, end), None, alloc, base);
  }

  /** `largest` once a fresh right part has been inserted, before the node itself is offered. */
  function OfferRight(largest: Extent, pieces: seq<Extent>): Extent {
    if |pieces| == 2 then ExtentUpdate.Grow(largest, pieces[1]) else largest
  }

  /** Keep the parts of the node at rank k that lie outside pos..end and are long enough. */
  method KeepParts(w: Work, ino: Ino, k: nat, dei: Extent, pos: nat, end: nat, alloc: bool,
                   ghost base: Base, ghost xs: seq<Extent>)
    returns (w': Work, next: nat, parts: nat)
    requires WorkInv(w, ino, base) && pos <= end
    requires xs == Extents(w.t.nodes) && Ordered(xs) && k < |xs| && xs[k] == dei
    requires dei.fofs < end && pos < End(dei)
    ensures WorkInv(w', ino, base) && Marked(w.t, w'.t) && w'.t.noExtent == w.t.noExtent
    ensures next == k + (if KeepsLeft(dei, pos) then 1 else 0)
    ensures parts == (if KeepsLeft(dei, pos) then 1 else 0) + (if KeepsRight(dei, end) then 1 else 0)
    ensures w'.t.largest == OfferRight(w.t.largest, Pieces(dei, pos, end, alloc))
    ensures parts == 0 ==> w' == w
    ensures parts > 0 ==> Extents(w'.t.nodes) == Spliced(xs, k, Pieces(dei, pos, end, alloc))
  {
    hide TreeInv, ListInv, Ordered;
    w', parts, next := w, 0, k;
    if pos > dei.fofs && pos - dei.fofs >= MIN_EXTENT_LEN {
      w' := ShrinkNode(w', ino, k, LeftPart(dei, pos), base);
      parts, next := 1, k + 1;
    }
    if end < End(dei) && End(dei) - end >= MIN_EXTENT_LEN {
      if parts == 1 {
        w' := InsertRight(w', ino, k, dei, pos, end, alloc, base, xs);
      } else {
        w' := ShrinkNode(w', ino, k, RightPart(dei, end), base);
      }
      parts := parts + 1;
    }
  }

  lemma InvOrdered(w: Work)
    requires TreeInv(w.t, w.nextId)
    ensures Ordered(Extents(w.t.nodes))
  {
  }

  lemma CutFacts(w: Work, k: nat, pos: nat, end: nat, alloc: bool)
    requires TreeInv(w.t, w.nextId) && pos <= end
    requires k < |w.t.nodes| && k == Rank(Extents(w.t.nodes), pos)
    requires w.t.nodes[k].ei.fofs < end
    ensures
      var xs := Extents(w.t.nodes);
      var dei := w.t.nodes[k].ei;
      var pieces := Pieces(dei, pos, end, alloc);
      && Ordered(xs) && xs[k] == dei && pos < End(dei)
      && |pieces| <= 2 && (pieces == [] <==> !KeepsLeft(dei, pos) && !KeepsRight(dei, end))
      && Rank(Spliced(xs, k, pieces), pos) == k + (if KeepsLeft(dei, pos) then 1 else 0)
  {
    CutRank(Extents(w.t.nodes), k, pos, end, alloc);
  }

  /** One pass of the invalidation loop. */
  method CutNode(w: Work, ino: Ino, k: nat, pos: nat, end: nat, alloc: bool, ghost base: Base)
    returns (w': Work, next: nat, parts: nat)
    requires WorkInv(w, ino, base) && pos <= end
    requires k < |w.t.nodes| && k == Rank(Extents(w.t.nodes), pos)
    requires w.t.nodes[k].ei.fofs < end
    ensures WorkInv(w', ino, base) && Marked(w.t, w'.t) && w'.t.noExtent == w.t.noExtent
    ensures
      var xs := Extents(w.t.nodes);
      var pieces := Pieces(xs[k], pos, end, alloc);
      && Extents(w'.t.nodes) == Spliced(xs, k, pieces)
      && w'.t.largest == ExtentUpdate.Offer(w.t.largest, pieces)
      && next == k + (if KeepsLeft(xs[k], pos) then 1 else 0) == Rank(Extents(w'.t.nodes), pos)
      && parts == (if KeepsLeft(xs[k], pos) then 1 else 0) + (if KeepsRight(xs[k], end) then 1 else 0)
  {
    hide TreeInv, ListInv, Ordered, Rank, Pieces, KeepsLeft, KeepsRight;
    var dei := w.t.nodes[k].ei;
    ghost var xs := Extents(w.t.nodes);
    ghost var pieces := Pieces(dei, pos, end, alloc);
    CutFacts(w, k, pos, end, alloc);
    assert pos < End(dei);  // the f2fs_bug_on of the loop
    w', next, parts := KeepParts(w, ino, k, dei, pos, end, alloc, base, xs);
    if parts > 0 {
      assert w'.t.nodes[k].ei == Extents(w'.t.nodes)[k] == pieces[0];
      GrowTreeInv(w', ino, base, w'.t.nodes[k].ei);
      w' := w'.(t := GrowTree(w'.t, w'.t.nodes[k].ei));
    } else {
      ReleaseNodeInv(w', ino, base, k);
      w' := ReleaseNode(w', ino, k);
    }
  }

  lemma CutOrdered(xs: seq<Extent>, k: nat, e: Extent)
    requires Ordered(xs) && k < |xs| && e.len > 0 && xs[k].fofs <= e.fofs && End(e) <= End(xs[k])
    ensures Ordered(xs[k := e])
  {
  }

  /** The right part of a split goes just behind the left part. */
  lemma RightRank(xs: seq<Extent>, k: nat, pos: nat, end: nat)
    requires Ordered(xs) && k < |xs| && pos <= end && xs[k].fofs <= pos && end < End(xs[k])
    ensures
      var ys := xs[k := LeftPart(xs[k], pos)];
      var right := RightPart(xs[k], end);
      AllDisjoint(ys, right.fofs, End(right)) && Rank(ys, right.fofs) == k + 1
  {
    var ys := xs[k := LeftPart(xs[k], pos)];
    var right := RightPart(xs[k], end);
    forall i | 0 <= i < |ys| ensures Disjoint(ys[i], right.fofs, End(right)) {
    }
    assert k + 1 < |xs| ==> End(xs[k]) <= xs[k + 1].fofs && xs[k + 1].len > 0;
    assert forall i :: 0 <= i < k ==> End(xs[i]) <= xs[k].fofs;
    RankAt(ys, right.fofs, k + 1);
  }

  lemma CutRank(xs: seq<Extent>, k: nat, pos: nat, end: nat, alloc: bool)
    requires Ordered(xs) && k < |xs| && pos <= end && xs[k].fofs < end
    requires k == Rank(xs, pos)
    ensures
      var ys := Spliced(xs, k, Pieces(xs[k], pos, end, alloc));
      Rank(ys, pos) == k + (if KeepsLeft(xs[k], pos) then 1 else 0)
  {
    var ys := Spliced(xs, k, Pieces(xs[k], pos, end, alloc));
    assert k + 1 < |xs| ==> End(xs[k]) <= xs[k + 1].fofs && xs[k + 1].len > 0;
    assert forall i :: 0 <= i < k ==> ys[i] == xs[i];
    RankAt(ys, pos, k + (if KeepsLeft(xs[k], pos) then 1 else 0));
  }

  // ----- merging the new extent with its neighbours

  /** What step 3 of the update knows about the neighbours it was handed. */
  ghost predicate GoodNeighbours(xs: seq<Extent>, e: Extent, prev: Option<nat>, next: Option<nat>) {
    var p := Rank(xs, e.fofs);
    && next == (if p < |xs| then Some(p) else None)
    && (prev == Prev(p) || (prev.None? && (p > 0 ==> End(xs[p - 1]) < e.fofs)))
  }

  lemma MergeBackFacts(xs: seq<Extent>, e: Extent)
    requires Ordered(xs) && e.len > 0 && AllDisjoint(xs, e.fofs, End(e)) && MergesBack(xs, e)
    ensures
      var p := Rank(xs, e.fofs);
      var ys := xs[p - 1 := BackJoined(xs, e)];
      && Ordered(ys)
      && (!MergesFront(xs, e) ==> ys == MergeInsert(xs, e, false))
  {
    var p := Rank(xs, e.fofs);
    RankOfGap(xs, e);
    OrderedSlice(xs, p - 1);
    ReplaceOrdered(xs, p - 1, p, BackJoined(xs, e));
    hide Ordered, Rank;
    assert xs[p - 1 := BackJoined(xs, e)] == xs[..p - 1] + [BackJoined(xs, e)] + xs[p..];
  }

  /** Both neighbours join: the one before is released, the one after takes everything. */
  lemma MergeBothFacts(xs: seq<Extent>, e: Extent)
    requires Ordered(xs) && e.len > 0 && AllDisjoint(xs, e.fofs, End(e)) && MergesBack(xs, e) && MergesFront(xs, e)
    ensures
      var p := Rank(xs, e.fofs);
      var ys := Spliced(xs[p - 1 := BackJoined(xs, e)], p - 1, []);
      p - 1 < |ys| && Ordered(ys[p - 1 := Joined(xs, e)]) && ys[p - 1 := Joined(xs, e)] == MergeInsert(xs, e, false)
  {
    var p := Rank(xs, e.fofs);
    MergeInsertOrdered(xs, e, false);
    var ys := Spliced(xs[p - 1 := BackJoined(xs, e)], p - 1, []);
    assert ys == xs[..p - 1] + xs[p..];
    assert ys[p - 1 := Joined(xs, e)] == xs[..p - 1] + [Joined(xs, e)] + xs[p + 1..];
  }

  lemma MergeFrontFacts(xs: seq<Extent>, e: Extent)
    requires Ordered(xs) && e.len > 0 && AllDisjoint(xs, e.fofs, End(e)) && !MergesBack(xs, e) && MergesFront(xs, e)
    ensures
      var p := Rank(xs, e.fofs);
      Ordered(xs[p := Joined(xs, e)]) && xs[p := Joined(xs, e)] == MergeInsert(xs, e, false)
  {
    MergeInsertOrdered(xs, e, false);
    var p := Rank(xs, e.fofs);
    assert xs[p := Joined(xs, e)] == xs[..p] + [Joined(xs, e)] + xs[p + 1..];
  }

  /** The pointers decide the merges as the list does. */
  lemma NeighboursDecide(xs: seq<Extent>, e: Extent, prev: Option<nat>, next: Option<nat>)
    requires GoodNeighbours(xs, e, prev, next)
    ensures prev.Some? ==> prev.value == Rank(xs, e.fofs) - 1 && prev.value < |xs|
    ensures next.Some? ==> next.value == Rank(xs, e.fofs) && next.value < |xs|
    ensures MergesBack(xs, e) <==> prev.Some? && Mergeable(xs[prev.value], e)
    ensures MergesFront(xs, e) <==> next.Some? && Mergeable(BackJoined(xs, e), xs[next.value])
  {
  }

  /** Give the node at rank k the extent `e` and make it the most recent one. */
  method WidenNode(w: Work, ino: Ino, k: nat, e: Extent, ghost base: Base) returns (w': Work)
    requires WorkInv(w, ino, base) && k < |w.t.nodes|
    requires Ordered(Extents(w.t.nodes)[k := e])
    ensures WorkInv(w', ino, base) && Marked(w.t, w'.t) && w'.t.noExtent == w.t.noExtent
    ensures Extents(w'.t.nodes) == Extents(w.t.nodes)[k := e]
    ensures w'.t.largest == ExtentUpdate.Grow(w.t.largest, e)
    ensures Recent(w'.t, w'.lru, ino, e)
  {
    hide TreeInv, ListInv, Ordered;
    SetExtentInv(w, ino, base, k, e);
    w' := SetExtent(w, k, e);
    GrowTreeInv(w', ino, base, e);
    w' := w'.(t := GrowTree(w'.t, e));
    TouchNodeInv(w', ino, base, k);
    w' := TouchNode(w', ino, k);
    assert w'.t.nodes[k] == Node(w.t.nodes[k].id, e);
  }

  /** Both neighbours merge: the node behind rank k takes everything and the one at k is released. */
  method MergeBoth(w: Work, ino: Ino, k: nat, cur: Extent, e: Extent, ghost base: Base) returns (w': Work)
    requires WorkInv(w, ino, base) && k + 1 < |w.t.nodes|
    requires
      var xs := Extents(w.t.nodes)[k := cur];
      Ordered(xs) && Ordered(Spliced(xs, k, [])[k := e])
    ensures WorkInv(w', ino, base) && Marked(w.t, w'.t) && w'.t.noExtent == w.t.noExtent
    ensures Extents(w'.t.nodes) == Spliced(Extents(w.t.nodes)[k := cur], k, [])[k := e]
    ensures w'.t.largest == ExtentUpdate.Grow(w.t.largest, e)
    ensures Recent(w'.t, w'.lru, ino, e)
  {
    hide TreeInv, ListInv, Ordered, Recent;
    SetExtentInv(w, ino, base, k, cur);
    w' := SetExtent(w, k, cur);
    ReleaseNodeInv(w', ino, base, k);
    w' := ReleaseNode(w', ino, k);
    w' := WidenNode(w', ino, k, e, base);
  }

  /** __try_merge_extent_node. */
  method TryMerge(w: Work, ino: Ino, e: Extent, prev: Option<nat>, next: Option<nat>, ghost base: Base)
    returns (w': Work, merged: bool)
    requires WorkInv(w, ino, base) && e.len > 0
    requires AllDisjoint(Extents(w.t.nodes), e.fofs, End(e))
    requires GoodNeighbours(Extents(w.t.nodes), e, prev, next)
    ensures WorkInv(w', ino, base) && Marked(w.t, w'.t) && w'.t.noExtent == w.t.noExtent
    ensures
      var xs := Extents(w.t.nodes);
      && merged == (MergesBack(xs, e) || MergesFront(xs, e))
      && Extents(w'.t.nodes) == MergeInsert(xs, e, false)
      && w'.t.largest == ExtentUpdate.Offer(w.t.largest, ExtentUpdate.Inserted(xs, e, false))
      && (if merged then Recent(w'.t, w'.lru, ino, Joined(xs, e)) else w' == w)
  {
    hide TreeInv, ListInv, Ordered, Rank, AllDisjoint, GoodNeighbours, Recent;
    ghost var xs := Extents(w.t.nodes);
    InvOrdered(w);
    NeighboursDecide(xs, e, prev, next);
    var back := prev.Some? && Mergeable(w.t.nodes[prev.value].ei, e);
    var cur := if back then Join(w.t.nodes[prev.value].ei, e) else e;
    var front := next.Some? && Mergeable(cur, w.t.nodes[next.value].ei);
    merged := back || front;
    if back && front {
      MergeBackFacts(xs, e);
      MergeBothFacts(xs, e);
      w' := MergeBoth(w, ino, prev.value, cur, Join(cur, w.t.nodes[next.value].ei), base);
    } else if back {
      MergeBackFacts(xs, e);
      w' := WidenNode(w, ino, prev.value, cur, base);
    } else if front {
      MergeFrontFacts(xs, e);
      w' := WidenNode(w, ino, next.value, Join(cur, w.t.nodes[next.value].ei), base);
    } else {
      w' := w;
    }
  }

  // ----- freeing a tree

  /** __free_extent_tree. */
  method FreeTree(w: Work, ino: Ino, ghost base: Base) returns (w': Work, count: nat)
    requires WorkInv(w, ino, base)
    ensures WorkInv(w', ino, base)
    ensures w'.t == w.t.(nodes := [], nodeCnt := 0, cached := None)
    ensures w'.nextId == w.nextId
    ensures count == w.t.nodeCnt
  {
    hide TreeInv, ListInv;
    count := w.t.nodeCnt;
    w' := w;
    FreeFacts(w', ino, base);
    while w'.t.nodes != []
      invariant WorkInv(w', ino, base)
      invariant w'.t == w.t.(nodes := w'.t.nodes, nodeCnt := w'.t.nodeCnt, cached := w'.t.cached)
      invariant w'.nextId == w.nextId
      invariant w'.t.nodeCnt == |w'.t.nodes| && (w'.t.nodes == [] ==> w'.t.cached == None)
      decreases |w'.t.nodes|
    {
      ReleaseNodeInv(w', ino, base, 0);
      w' := ReleaseNode(w', ino, 0);
      FreeFacts(w', ino, base);
    }
    count := count - w'.t.nodeCnt;
  }

  /** With its last node gone the tree has left the list. */
  lemma OthersRemain(w: Work, ino: Ino, base: Base)
    requires WorkInv(w, ino, base) && w.t.nodes == []
    ensures w.lru == Others(base.lru, ino)
  {
    forall i | 0 <= i < |w.lru| ensures w.lru[i].ino != ino {
      assert w.lru[i] == Ref(w.lru[i].ino, w.lru[i].id) && w.lru[i] in w.lru;
    }
    OthersAll(w.lru, ino);
  }

  lemma {:induction false} OthersAll(lru: seq<Ref>, ino: Ino)
    requires forall i :: 0 <= i < |lru| ==> lru[i].ino != ino
    ensures Others(lru, ino) == lru
  {
    if lru != [] {
      OthersAll(lru[..|lru| - 1], ino);
    }
  }

  lemma FreeFacts(w: Work, ino: Ino, base: Base)
    requires WorkInv(w, ino, base)
    ensures w.t.nodeCnt == |w.t.nodes| && (w.t.nodes == [] ==> w.t.cached == None)
  {
  }

  // ----- invalidating a range

  /** Where the invalidation loop stands: extents before rank i are cut, the others untouched. */
  ghost predicate CutUpTo(xs0: seq<Extent>, l0: Extent, i: nat, xs: seq<Extent>, largest: Extent, k: nat,
                          fofs: nat, end: nat, alloc: bool)
    requires fofs <= end
  {
    && i <= |xs0|
    && xs == Punch(xs0[..i], fofs, end, alloc) + xs0[i..]
    && largest == ExtentUpdate.PunchLargest(l0, xs0[..i], fofs, end, alloc)
    && k == Rank(xs, fofs)
    && (k == |Punch(xs0[..i], fofs, end, alloc)| || (k < |xs| && xs[k].fofs >= end))
  }

  /** Some extent before rank i meets the range. */
  ghost predicate MeetsBefore(xs: seq<Extent>, i: nat, fofs: nat, end: nat) {
    i <= |xs| && ExtentUpdate.Meets(xs[..i], fofs, end)
  }

  lemma LargestOfNone(l0: Extent, fofs: nat, end: nat, alloc: bool)
    requires fofs <= end
    ensures ExtentUpdate.PunchLargest(l0, [], fofs, end, alloc) == l0
  {
  }

  lemma CutStart(xs0: seq<Extent>, l0: Extent, fofs: nat, end: nat, alloc: bool)
    requires fofs <= end
    ensures
      var k := Rank(xs0, fofs);
      CutUpTo(xs0, l0, k, xs0, l0, k, fofs, end, alloc) && !MeetsBefore(xs0, k, fofs, end)
  {
    hide Punch, ExtentUpdate.PunchLargest, Ordered;
    var k := Rank(xs0, fofs);
    PunchDisjoint(xs0[..k], fofs, end, alloc);
    LargestOfNone(l0, fofs, end, alloc);
    ExtentUpdate.PunchLargestDisjoint(l0, [], xs0[..k], fofs, end, alloc);
    assert [] + xs0[..k] == xs0[..k];
    assert xs0 == xs0[..k] + xs0[k..];
  }

  lemma CutStep(xs0: seq<Extent>, l0: Extent, i: nat, xs: seq<Extent>, largest: Extent, k: nat,
                fofs: nat, end: nat, alloc: bool)
    requires fofs <= end && Ordered(xs)
    requires CutUpTo(xs0, l0, i, xs, largest, k, fofs, end, alloc)
    requires k < |xs| && xs[k].fofs < end
    ensures
      var pieces := Pieces(xs[k], fofs, end, alloc);
      var xs' := Spliced(xs, k, pieces);
      var k' := k + (if KeepsLeft(xs[k], fofs) then 1 else 0);
      && CutUpTo(xs0, l0, i + 1, xs', ExtentUpdate.Offer(largest, pieces), k', fofs, end, alloc)
      && MeetsBefore(xs0, i + 1, fofs, end)
  {
    hide Ordered, Pieces, Punch, ExtentUpdate.PunchLargest, ExtentUpdate.Offer, KeepsLeft, Rank;
    var before := Punch(xs0[..i], fofs, end, alloc);
    var pieces := Pieces(xs[k], fofs, end, alloc);
    RankPast(xs, fofs);
    PunchOne(xs0, l0, i, fofs, end, alloc);
    assert xs[k] == xs0[i];
    assert xs[..k] == before && xs[k + 1..] == xs0[i + 1..];
    CutRank(xs, k, fofs, end, alloc);
    PiecesLeft(xs[k], fofs, end, alloc);
    assert !Disjoint(xs0[..i + 1][i], fofs, end);
  }

  lemma RankPast(xs: seq<Extent>, page: nat)
    ensures Rank(xs, page) <= |xs| && (Rank(xs, page) < |xs| ==> page < End(xs[Rank(xs, page)]))
  {
  }

  lemma PunchOne(xs0: seq<Extent>, l0: Extent, i: nat, fofs: nat, end: nat, alloc: bool)
    requires fofs <= end && i < |xs0|
    ensures Punch(xs0[..i + 1], fofs, end, alloc) ==
      Punch(xs0[..i], fofs, end, alloc) + Pieces(xs0[i], fofs, end, alloc)
    ensures !Disjoint(xs0[i], fofs, end) ==>
      ExtentUpdate.PunchLargest(l0, xs0[..i + 1], fofs, end, alloc) ==
        ExtentUpdate.Offer(ExtentUpdate.PunchLargest(l0, xs0[..i], fofs, end, alloc), Pieces(xs0[i], fofs, end, alloc))
  {
    assert xs0[..i + 1][..i] == xs0[..i] && xs0[..i + 1][i] == xs0[i];
  }

  /** A cut extent has its left part, if any, before the range and the other one behind it. */
  lemma PiecesLeft(e: Extent, lo: nat, hi: nat, alloc: bool)
    requires lo <= hi && !Disjoint(e, lo, hi)
    ensures
      var ps, left := Pieces(e, lo, hi, alloc), if KeepsLeft(e, lo) then 1 else 0;
      |ps| == left || (|ps| == left + 1 && ps[left].fofs >= hi)
  {
  }

  lemma MeetsSplit(xs: seq<Extent>, i: nat, fofs: nat, end: nat)
    requires i <= |xs| && AllDisjoint(xs[i..], fofs, end)
    ensures ExtentUpdate.Meets(xs, fofs, end) == MeetsBefore(xs, i, fofs, end)
  {
    if ExtentUpdate.Meets(xs, fofs, end) {
      var j :| 0 <= j < |xs| && !Disjoint(xs[j], fofs, end);
      assert xs[..i][j] == xs[j];
    }
  }

  /** The extents the loop did not reach lie behind the range. */
  lemma RestDisjoint(xs0: seq<Extent>, l0: Extent, i: nat, xs: seq<Extent>, largest: Extent, k: nat,
                     fofs: nat, end: nat, alloc: bool)
    requires fofs <= end && Ordered(xs)
    requires CutUpTo(xs0, l0, i, xs, largest, k, fofs, end, alloc)
    requires k < |xs| ==> xs[k].fofs >= end
    ensures AllDisjoint(xs0[i..], fofs, end)
  {
    var m := |Punch(xs0[..i], fofs, end, alloc)|;
    forall j | 0 <= j < |xs0[i..]| ensures Disjoint(xs0[i..][j], fofs, end) {
      assert xs[m + j] == xs0[i..][j];
      assert k < m + j ==> xs[k].fofs <= xs[m + j].fofs;
    }
  }

  lemma CutDone(xs0: seq<Extent>, l0: Extent, i: nat, xs: seq<Extent>, largest: Extent, k: nat,
                fofs: nat, end: nat, alloc: bool)
    requires fofs <= end && Ordered(xs)
    requires CutUpTo(xs0, l0, i, xs, largest, k, fofs, end, alloc)
    requires k < |xs| ==> xs[k].fofs >= end
    ensures xs == Punch(xs0, fofs, end, alloc)
    ensures largest == ExtentUpdate.PunchLargest(l0, xs0, fofs, end, alloc)
    ensures ExtentUpdate.Meets(xs0, fofs, end) == MeetsBefore(xs0, i, fofs, end)
  {
    hide Ordered, Disjoint, Punch, ExtentUpdate.PunchLargest, ExtentUpdate.Meets, AllDisjoint, MeetsBefore;
    RestDisjoint(xs0, l0, i, xs, largest, k, fofs, end, alloc);
    assert xs0 == xs0[..i] + xs0[i..];
    PunchDisjoint(xs0[i..], fofs, end, alloc);
    PunchAppend(xs0[..i], xs0[i..], fofs, end, alloc);
    ExtentUpdate.PunchLargestDisjoint(l0, xs0[..i], xs0[i..], fofs, end, alloc);
    MeetsSplit(xs0, i, fofs, end);
  }

  /** The in-order rank of a node, by identity. */
  function FindId(nodes: seq<Node>, id: nat): (r: Option<nat>)
    ensures r.Some? ==> r.value < |nodes| && nodes[r.value].id == id
    ensures r.None? ==> !HasId(nodes, id)
  {
    if nodes == [] then None
    else if nodes[|nodes| - 1].id == id then Some(|nodes| - 1)
    else FindId(nodes[..|nodes| - 1], id)
  }

  function CachedRank(t: Tree): Option<nat> {
    if t.cached.Some? then FindId(t.nodes, t.cached.value) else None
  }

  /** What the invalidation loop keeps about the neighbours of `fofs`. */
  ghost predicate PointersOk(xs: seq<Extent>, k: nat, fofs: nat, prev: Option<nat>, hint: Option<nat>) {
    && k <= |xs|
    && (prev == Prev(k) || (prev.None? && (k > 0 ==> End(xs[k - 1]) < fofs)))
    && (hint.Some? ==> hint.value == k && (k < |xs| ==> xs[k].fofs > fofs))
  }

  lemma PointersStart(xs: seq<Extent>, fofs: nat)
    requires Ordered(xs)
    ensures
      var f := Neighbours(xs, fofs, false);
      var k := Rank(xs, fofs);
      && PointersOk(xs, k, fofs, f.prev, f.hint)
      && k == (if f.entry.Some? then f.entry.value else if f.next.Some? then f.next.value else |xs|)
      && (f.entry.Some? ==> k < |xs| && xs[k].fofs <= fofs)
      && (f.entry.None? ==> f.next == if k < |xs| then Some(k) else None)
  {
  }

  lemma PointersStep(xs: seq<Extent>, k: nat, fofs: nat, end: nat, alloc: bool, prev: Option<nat>, hint: Option<nat>,
                     parts: nat)
    requires fofs <= end && PointersOk(xs, k, fofs, prev, hint) && k < |xs| && xs[k].fofs < end
    requires k == Rank(xs, fofs)
    requires parts == (if KeepsLeft(xs[k], fofs) then 1 else 0) + (if KeepsRight(xs[k], end) then 1 else 0)
    ensures
      var left := KeepsLeft(xs[k], fofs);
      PointersOk(Spliced(xs, k, Pieces(xs[k], fofs, end, alloc)), if left then k + 1 else k, fofs,
                 if left then Some(k) else prev, if parts != 1 then None else hint)
  {
  }

  /** The loop's pointers: the node under the loop, prev_en and the insert hint, as ranks. */
  datatype Cursor = Cursor(k: nat, prev: Option<nat>, hint: Option<nat>)

  ghost predicate LoopInv(w0: Work, w: Work, ino: Ino, base: Base, i: nat, c: Cursor, dei: Extent,
                          fofs: nat, end: nat, alloc: bool)
  {
    var xs0, xs := Extents(w0.t.nodes), Extents(w.t.nodes);
    && fofs <= end
    && WorkInv(w, ino, base) && Marked(w0.t, w.t) && w.t.noExtent == w0.t.noExtent
    && CutUpTo(xs0, w0.t.largest, i, xs, w.t.largest, c.k, fofs, end, alloc)
    && PointersOk(xs, c.k, fofs, c.prev, c.hint)
    && (dei.len >= 1 <==> MeetsBefore(xs0, i, fofs, end))
  }

  lemma LoopFacts(w0: Work, w: Work, ino: Ino, base: Base, i: nat, c: Cursor, dei: Extent,
                  fofs: nat, end: nat, alloc: bool)
    requires LoopInv(w0, w, ino, base, i, c, dei, fofs, end, alloc)
    ensures
      var xs := Extents(w.t.nodes);
      && i <= |w0.t.nodes| && c.k <= |w.t.nodes| && c.k == Rank(xs, fofs)
      && WorkInv(w, ino, base) && Ordered(xs) && fofs <= end
      && (c.k < |xs| ==> xs[c.k] == w.t.nodes[c.k].ei && xs[c.k].len >= 1)
      && (c.k < |w.t.nodes| && w.t.nodes[c.k].ei.fofs < end ==> i < |w0.t.nodes|)
  {
    var xs := Extents(w.t.nodes);
    assert c.k < |xs| ==> xs[c.k].len >= 1;
  }

  lemma LoopStart(w: Work, ino: Ino, base: Base, fofs: nat, end: nat, alloc: bool)
    requires WorkInv(w, ino, base) && fofs <= end
    ensures
      var xs := Extents(w.t.nodes);
      var f := Neighbours(xs, fofs, false);
      var k := Rank(xs, fofs);
      && LoopInv(w, w, ino, base, k, Cursor(k, f.prev, f.hint), Extent(0, 0, 0), fofs, end, alloc)
      && k == (if f.entry.Some? then f.entry.value else if f.next.Some? then f.next.value else |w.t.nodes|)
      && (f.entry.Some? ==> k < |w.t.nodes| && w.t.nodes[k].ei.fofs <= fofs)
      && (f.entry.None? ==> f.next == if k < |w.t.nodes| then Some(k) else None)
  {
    hide TreeInv, ListInv, Ordered, Rank, Punch, ExtentUpdate.PunchLargest, ExtentUpdate.Meets, PointersOk, CutUpTo,
      Neighbours, MeetsBefore;
    var xs := Extents(w.t.nodes);
    InvOrdered(w);
    PointersStart(xs, fofs);
    CutStart(xs, w.t.largest, fofs, end, alloc);
  }

  /** What the loop has achieved when it stops. */
  lemma LoopEnd(w0: Work, w: Work, ino: Ino, base: Base, i: nat, c: Cursor, dei: Extent,
                fofs: nat, end: nat, alloc: bool)
    requires LoopInv(w0, w, ino, base, i, c, dei, fofs, end, alloc)
    requires c.k < |w.t.nodes| ==> w.t.nodes[c.k].ei.fofs >= end
    ensures
      var xs0 := Extents(w0.t.nodes);
      var xs := Punch(xs0, fofs, end, alloc);
      && Marked(w0.t, w.t) && w.t.noExtent == w0.t.noExtent
      && Extents(w.t.nodes) == xs
      && w.t.largest == ExtentUpdate.PunchLargest(w0.t.largest, xs0, fofs, end, alloc)
      && (dei.len >= 1 <==> ExtentUpdate.Meets(xs0, fofs, end))
      && c.k == Rank(xs, fofs) && PointersOk(xs, c.k, fofs, c.prev, c.hint)
  {
    hide TreeInv, ListInv, Ordered, Rank, Punch, ExtentUpdate.PunchLargest, ExtentUpdate.Meets, PointersOk, CutUpTo,
      MeetsBefore;
    InvOrdered(w);
    CutBounds(Extents(w0.t.nodes), w0.t.largest, i, Extents(w.t.nodes), w.t.largest, c.k, fofs, end, alloc);
    CutDone(Extents(w0.t.nodes), w0.t.largest, i, Extents(w.t.nodes), w.t.largest, c.k, fofs, end, alloc);
  }

  /** The loop body. */
  method CutPass(ghost w0: Work, w: Work, ino: Ino, ghost i: nat, c: Cursor, ghost dei: Extent,
                 fofs: nat, end: nat, alloc: bool, ghost base: Base)
    returns (w': Work, c': Cursor, dei': Extent)
    requires LoopInv(w0, w, ino, base, i, c, dei, fofs, end, alloc)
    requires c.k < |w.t.nodes| && w.t.nodes[c.k].ei.fofs < end
    ensures LoopInv(w0, w', ino, base, i + 1, c', dei', fofs, end, alloc)
  {
    hide TreeInv, ListInv, Ordered, Rank, Pieces, KeepsLeft, KeepsRight, Punch, ExtentUpdate.PunchLargest,
      PointersOk, CutUpTo, MeetsBefore, ExtentUpdate.Offer, Spliced;
    ghost var xs := Extents(w.t.nodes);
    LoopFacts(w0, w, ino, base, i, c, dei, fofs, end, alloc);
    dei' := w.t.nodes[c.k].ei;
    var k, parts;
    w', k, parts := CutNode(w, ino, c.k, fofs, end, alloc, base);
    c' := Cursor(k, if k == c.k + 1 then Some(c.k) else c.prev, if parts != 1 then None else c.hint);
    CutStep(Extents(w0.t.nodes), w0.t.largest, i, xs, w.t.largest, c.k, fofs, end, alloc);
    PointersStep(xs, c.k, fofs, end, alloc, c.prev, c.hint, parts);
  }

  /** Steps 1 and 2 of the update: find the first extent of the range, cut all that meet it. */
  method Invalidate(w: Work, ino: Ino, fofs: nat, end: nat, alloc: bool, ghost base: Base)
    returns (w': Work, prev: Option<nat>, next: Option<nat>, hint: Option<nat>, dei: Extent)
    requires WorkInv(w, ino, base) && fofs <= end
    ensures WorkInv(w', ino, base) && Marked(w.t, w'.t) && w'.t.noExtent == w.t.noExtent
    ensures
      var xs0 := Extents(w.t.nodes);
      var xs := Punch(xs0, fofs, end, alloc);
      && Extents(w'.t.nodes) == xs
      && w'.t.largest == ExtentUpdate.PunchLargest(w.t.largest, xs0, fofs, end, alloc)
      && (dei.len >= 1 <==> ExtentUpdate.Meets(xs0, fofs, end))
      && PointersOk(xs, Rank(xs, fofs), fofs, prev, hint)
      && (fofs < end ==> next == if Rank(xs, fofs) < |xs| then Some(Rank(xs, fofs)) else None)
  {
    hide TreeInv, ListInv, Ordered, Rank, Punch, ExtentUpdate.PunchLargest, ExtentUpdate.Meets, PointersOk,
      LoopInv, Neighbours, Arrange, InOrder, FindId, HasId;
    InvOrdered(w);
    var found, leftmost := LookupRet(Arrange(w.t.nodes), CachedRank(w.t), fofs, false);
    LoopStart(w, ino, base, fofs, end, alloc);
    next := found.next;
    var k := if found.entry.Some? then found.entry.value else if next.Some? then next.value else |w.t.nodes|;
    var c := Cursor(k, found.prev, found.hint);
    w', dei := w, Extent(0, 0, 0);
    ghost var i := k;
    LoopFacts(w, w', ino, base, i, c, dei, fofs, end, alloc);
    while c.k < |w'.t.nodes| && w'.t.nodes[c.k].ei.fofs < end
      invariant LoopInv(w, w', ino, base, i, c, dei, fofs, end, alloc)
      invariant i <= |w.t.nodes|
      invariant (c.k < |w'.t.nodes| && w'.t.nodes[c.k].ei.fofs < end) ||
        (fofs < end ==> next == if c.k < |w'.t.nodes| then Some(c.k) else None)
      decreases |w.t.nodes| - i
    {
      LoopFacts(w, w', ino, base, i, c, dei, fofs, end, alloc);
      w', c, dei := CutPass(w, w', ino, i, c, dei, fofs, end, alloc, base);
      next := if c.k < |w'.t.nodes| then Some(c.k) else None;
      i := i + 1;
      LoopFacts(w, w', ino, base, i, c, dei, fofs, end, alloc);
    }
    LoopFacts(w, w', ino, base, i, c, dei, fofs, end, alloc);
    LoopEnd(w, w', ino, base, i, c, dei, fofs, end, alloc);
    prev, hint := c.prev, c.hint;
  }

  lemma CutBounds(xs0: seq<Extent>, l0: Extent, i: nat, xs: seq<Extent>, largest: Extent, k: nat,
                  fofs: nat, end: nat, alloc: bool)
    requires fofs <= end && CutUpTo(xs0, l0, i, xs, largest, k, fofs, end, alloc)
    ensures i <= |xs0| && k == Rank(xs, fofs) <= |xs|
  {
  }

  // ----- the update of one tree

  /** The tree a given update leads to, apart from node identities. */
  ghost predicate UpdatedTo(t: Tree, t': Tree, r: ExtentUpdate.Outcome) {
    Extents(t'.nodes) == r.extents && t'.largest == r.largest && t'.noExtent == r.gaveUp
  }

  lemma MappedFacts(xs0: seq<Extent>, fofs: nat, blkaddr: nat, len: nat, alloc: bool,
                    prev: Option<nat>, next: Option<nat>, hint: Option<nat>)
    requires Ordered(xs0) && len > 0
    requires
      var xs := Punch(xs0, fofs, fofs + len, alloc);
      && PointersOk(xs, Rank(xs, fofs), fofs, prev, hint)
      && next == if Rank(xs, fofs) < |xs| then Some(Rank(xs, fofs)) else None
    ensures
      var xs := Punch(xs0, fofs, fofs + len, alloc);
      var e := Extent(fofs, blkaddr, len);
      && AllDisjoint(xs, e.fofs, End(e))
      && GoodNeighbours(xs, e, prev, next)
      && (hint.Some? ==> hint.value == Rank(xs, e.fofs))
  {
    hide Punch, Ordered, Rank, EndsBy;
    OrderedEnds(xs0);
    PunchOrdered(xs0, fofs, fofs + len, alloc, if xs0 == [] then 0 else End(xs0[|xs0| - 1]));
  }

  lemma OrderedEnds(xs: seq<Extent>)
    requires Ordered(xs)
    ensures EndsBy(xs, if xs == [] then 0 else End(xs[|xs| - 1]))
  {
  }

  lemma PlainInsert(xs: seq<Extent>, e: Extent)
    requires !MergesBack(xs, e) && !MergesFront(xs, e)
    ensures
      var p := Rank(xs, e.fofs);
      && MergeInsert(xs, e, true) == xs[..p] + [e] + xs[p..]
      && ExtentUpdate.Inserted(xs, e, true) == [e] && Joined(xs, e) == e
      && MergeInsert(xs, e, false) == xs && ExtentUpdate.Inserted(xs, e, false) == []
  {
  }

  lemma MergedInsert(xs: seq<Extent>, e: Extent, alloc: bool)
    requires MergesBack(xs, e) || MergesFront(xs, e)
    ensures MergeInsert(xs, e, alloc) == MergeInsert(xs, e, false)
    ensures ExtentUpdate.Inserted(xs, e, alloc) == ExtentUpdate.Inserted(xs, e, false)
  {
  }

  /** Step 3 of the update: cache the new mapping. */
  method CacheRange(w: Work, ino: Ino, e: Extent, prev: Option<nat>, next: Option<nat>, hint: Option<nat>,
                    alloc: bool, ghost base: Base)
    returns (w': Work)
    requires WorkInv(w, ino, base) && e.len > 0
    requires AllDisjoint(Extents(w.t.nodes), e.fofs, End(e))
    requires GoodNeighbours(Extents(w.t.nodes), e, prev, next)
    requires hint.Some? ==> hint.value == Rank(Extents(w.t.nodes), e.fofs)
    ensures WorkInv(w', ino, base) && Marked(w.t, w'.t) && w'.t.noExtent == w.t.noExtent
    ensures Extents(w'.t.nodes) == MergeInsert(Extents(w.t.nodes), e, alloc)
    ensures w'.t.largest == ExtentUpdate.Offer(w.t.largest, ExtentUpdate.Inserted(Extents(w.t.nodes), e, alloc))
    ensures ExtentUpdate.Inserted(Extents(w.t.nodes), e, alloc) != [] ==>
      Recent(w'.t, w'.lru, ino, Joined(Extents(w.t.nodes), e))
  {
    hide TreeInv, ListInv, Rank, GoodNeighbours, MergesBack, MergesFront, MergeInsert, ExtentUpdate.Inserted, Recent,
      Joined;
    ghost var xs := Extents(w.t.nodes);
    var merged;
    w', merged := TryMerge(w, ino, e, prev, next, base);
    if merged {
      MergedInsert(xs, e, alloc);
    } else {
      PlainInsert(xs, e);
      var inserted;
      w', inserted := InsertTree(w, ino, e, hint, alloc, base);
    }
  }

  /** f2fs_update_extent_tree_range on a tree in use. */
  method UpdateTree(w: Work, ino: Ino, fofs: nat, blkaddr: nat, len: nat, allocSplit: bool, allocInsert: bool,
                    ghost base: Base)
    returns (w': Work, updated: bool)
    requires WorkInv(w, ino, base) && !w.t.noExtent && !w.t.largestUpdated
    requires blkaddr != 0 ==> len > 0
    ensures WorkInv(w', ino, base) && !w'.t.largestUpdated
    ensures UpdatedTo(w.t, w'.t,
                      ExtentUpdate.Update(Extents(w.t.nodes), w.t.largest, fofs, blkaddr, len, allocSplit, allocInsert))
    ensures updated <==>
      w'.t.largest != w.t.largest || w'.t.noExtent || (fofs < End(w.t.largest) && fofs + len > w.t.largest.fofs)
    ensures blkaddr != 0 && allocInsert && !w'.t.noExtent ==>
      RecentlyMapped(w'.t, w'.lru, ino, Extent(fofs, blkaddr, len))
  {
    hide TreeInv, ListInv, Rank, Punch, ExtentUpdate.PunchLargest, ExtentUpdate.Meets, MergeInsert,
      ExtentUpdate.Inserted, PointersOk, GoodNeighbours, AllDisjoint, Ordered, Recent, Joined, RecentlyMapped;
    ghost var xs0 := Extents(w.t.nodes);
    var was := w.t.largest;
    var w0 := w;
    if fofs < End(was) && fofs + len > was.fofs {
      w0 := w.(t := w.t.(largest := was.(len := 0), largestUpdated := true));
    }
    SameNodes(w, w0, ino, base);
    var prev, next, hint, dei;
    w', prev, next, hint, dei := Invalidate(w0, ino, fofs, fofs + len, allocSplit, base);
    if blkaddr != 0 {
      InvOrdered(w);
      MappedFacts(xs0, fofs, blkaddr, len, allocSplit, prev, next, hint);
      ghost var xs := Extents(w'.t.nodes);
      w' := CacheRange(w', ino, Extent(fofs, blkaddr, len), prev, next, hint, allocInsert, base);
      if allocInsert {
        JoinedHolds(xs, Extent(fofs, blkaddr, len), w', ino);
      }
      if dei.len >= 1 && was.len < MIN_EXTENT_LEN && w'.t.largest.len < MIN_EXTENT_LEN {
        ghost var before := w';
        w' := w'.(t := w'.t.(largest := w'.t.largest.(len := 0), largestUpdated := true, noExtent := true));
        SameNodes(before, w', ino, base);
      }
    }
    if w'.t.noExtent {
      var count;
      w', count := FreeTree(w', ino, base);
    }
    updated := w'.t.largestUpdated;
    ghost var marked := w';
    w' := w'.(t := w'.t.(largestUpdated := false));
    SameNodes(marked, w', ino, base);
    SameRecent(marked, w', ino, Extent(fofs, blkaddr, len));
  }

  /** The most recently used node of all belongs to this tree and maps every page of `e` as `e` does. */
  ghost predicate RecentlyMapped(t: Tree, lru: seq<Ref>, ino: Ino, e: Extent) {
    exists m: Extent :: Recent(t, lru, ino, m) && Holds(m, e)
  }

  /** Extent `m` maps every page of `e` as `e` does. */
  predicate Holds(m: Extent, e: Extent) {
    m.fofs <= e.fofs && End(e) <= End(m) && m.blk + e.fofs == e.blk + m.fofs
  }

  lemma JoinedHolds(xs: seq<Extent>, e: Extent, w: Work, ino: Ino)
    ensures ExtentUpdate.Inserted(xs, e, true) != []
    ensures Recent(w.t, w.lru, ino, Joined(xs, e)) ==> RecentlyMapped(w.t, w.lru, ino, e)
  {
    hide Recent, Rank;
    var m := Joined(xs, e);
    assert Holds(m, e);
  }

  lemma SameRecent(w: Work, w': Work, ino: Ino, e: Extent)
    requires w'.lru == w.lru && w'.t == w.t.(largestUpdated := w'.t.largestUpdated)
    ensures RecentlyMapped(w.t, w.lru, ino, e) ==> RecentlyMapped(w'.t, w'.lru, ino, e)
  {
    if m: Extent :| Recent(w.t, w.lru, ino, m) && Holds(m, e) {
      assert Recent(w'.t, w'.lru, ino, m);
    }
  }

  lemma SameNodes(w: Work, w': Work, ino: Ino, base: Base)
    requires WorkInv(w, ino, base)
    requires w'.lru == w.lru && w'.nextId == w.nextId
    requires w'.t.nodes == w.t.nodes && w'.t.nodeCnt == w.t.nodeCnt && w'.t.cached == w.t.cached
    ensures WorkInv(w', ino, base)
  {
  }

  // ----- the cache

  ghost predicate GoodTree(t: Tree, nextId: nat, bm: BlockMap) {
    && TreeInv(t, nextId)
    && AllAgree(Extents(t.nodes), bm) && Agrees(t.largest, bm)
    && !t.largestUpdated
    && (t.noExtent ==> t.nodes == [] && t.largest.len == 0)
  }

  /** The LRU list holds every node of every tree exactly once. */
  ghost predicate LruInv(trees: map<Ino, Tree>, lru: seq<Ref>) {
    && NoDup(lru)
    && (forall r :: r in lru <==> r.ino in trees && HasId(trees[r.ino].nodes, r.id))
  }

  ghost predicate GoodTrees(trees: map<Ino, Tree>, nextId: nat, truth: map<Ino, BlockMap>) {
    forall ino :: ino in trees ==> ino in truth && GoodTree(trees[ino], nextId, truth[ino])
  }

  lemma EnterTree(trees: map<Ino, Tree>, lru: seq<Ref>, nextId: nat, truth: map<Ino, BlockMap>, ino: Ino)
    requires LruInv(trees, lru) && GoodTrees(trees, nextId, truth) && ino in trees
    ensures WorkInv(Work(trees[ino], lru, nextId), ino, Base(lru, nextId))
  {
    assert forall id :: Ref(ino, id) in lru <==> HasId(trees[ino].nodes, id);
  }

  lemma LeaveTree(trees: map<Ino, Tree>, lru: seq<Ref>, nextId: nat, truth: map<Ino, BlockMap>, ino: Ino, w: Work,
                  bm: BlockMap)
    requires LruInv(trees, lru) && GoodTrees(trees, nextId, truth)
    requires WorkInv(w, ino, Base(lru, nextId)) && GoodTree(w.t, w.nextId, bm)
    ensures LruInv(trees[ino := w.t], w.lru) && GoodTrees(trees[ino := w.t], w.nextId, truth[ino := bm])
  {
    var trees' := trees[ino := w.t];
    OthersAre(w.lru, ino);
    OthersAre(lru, ino);
    forall r ensures r in w.lru <==> r.ino in trees' && HasId(trees'[r.ino].nodes, r.id) {
      assert r == Ref(r.ino, r.id);
    }
  }

  lemma UpdateGood(t: Tree, w: Work, fofs: nat, blkaddr: nat, len: nat, allocSplit: bool, allocInsert: bool,
                   nextId: nat, bm: BlockMap, bm': BlockMap)
    requires GoodTree(t, nextId, bm) && ExtentUpdate.Announced(bm, bm', fofs, blkaddr, len)
    requires TreeInv(w.t, w.nextId) && !w.t.largestUpdated
    requires UpdatedTo(t, w.t,
                       ExtentUpdate.Update(Extents(t.nodes), t.largest, fofs, blkaddr, len, allocSplit, allocInsert))
    ensures GoodTree(w.t, w.nextId, bm')
  {
    hide TreeInv, AllAgree, Agrees, Punch, ExtentUpdate.PunchLargest, MergeInsert, ExtentUpdate.Inserted,
      ExtentUpdate.Meets, ExtentUpdate.Announced;
    ExtentUpdate.UpdateAgrees(Extents(t.nodes), t.largest, fofs, blkaddr, len, allocSplit, allocInsert, bm, bm');
  }

  /** A tree as __grab_extent_tree makes it. */
  function NewTree(): Tree {
    Tree([], 0, None, Extent(0, 0, 0), false, false)
  }

  /** __init_extent_tree on an empty tree. */
  function FirstNode(w: Work, ino: Ino, e: Extent): Work {
    var t := w.t.(nodes := [Node(w.nextId, e)], nodeCnt := 1, cached := Some(w.nextId), largest := e);
    Work(t, w.lru + [Ref(ino, w.nextId)], w.nextId + 1)
  }

  lemma GrabInv(trees: map<Ino, Tree>, lru: seq<Ref>, nextId: nat, truth: map<Ino, BlockMap>, ino: Ino, t: Tree)
    requires LruInv(trees, lru) && GoodTrees(trees, nextId, truth) && ino in truth
    requires t == if ino in trees then trees[ino].(noExtent := false) else NewTree()
    ensures GoodTree(t, nextId, truth[ino])
    ensures WorkInv(Work(t, lru, nextId), ino, Base(lru, nextId))
  {
    if ino in trees {
      EnterTree(trees, lru, nextId, truth, ino);
    } else {
      assert forall id :: Ref(ino, id) !in lru;
    }
  }

  lemma FirstNodeGood(t: Tree, lru: seq<Ref>, nextId: nat, ino: Ino, e: Extent, bm: BlockMap, base: Base)
    requires GoodTree(t, nextId, bm) && WorkInv(Work(t, lru, nextId), ino, base)
    requires t.nodeCnt == 0 && e.len > 0 && Agrees(e, bm) && !t.noExtent
    ensures
      var w := FirstNode(Work(t, lru, nextId), ino, e);
      GoodTree(w.t, w.nextId, bm) && WorkInv(w, ino, base) && Extents(w.t.nodes) == [e]
  {
    var w := FirstNode(Work(t, lru, nextId), ino, e);
    AppendNoDup(lru, Ref(ino, nextId));
    OthersAdd(lru, ino, nextId);
    assert Extents(w.t.nodes) == [e];
    forall id ensures HasId(w.t.nodes, id) <==> id == nextId {
      assert w.t.nodes[0].id == nextId;
    }
  }

  /** A tree that gave up holds nothing that could disagree. */
  lemma EmptyGood(t: Tree, nextId: nat, bm: BlockMap, bm': BlockMap)
    requires GoodTree(t, nextId, bm) && t.noExtent
    ensures GoodTree(t, nextId, bm')
  {
  }

  class ExtentCache {
    var trees: map<Ino, Tree>
    var lru: seq<Ref>
    var nextId: nat
    ghost var truth: map<Ino, BlockMap>   // the files' real block maps

    ghost predicate Valid()
      reads this
    {
      LruInv(trees, lru) && GoodTrees(trees, nextId, truth)
    }

    constructor (ghost truth: map<Ino, BlockMap>)
      ensures Valid() && trees == map[] && this.truth == truth
    {
      trees, lru, nextId := map[], [], 0;
      this.truth := truth;
    }

    /** __f2fs_init_extent_tree: a freshly read inode brings the extent stored in its node block. */
    method InitTree(ino: Ino, stored: Extent, alloc: bool)
      requires Valid() && ino in truth && Agrees(stored, truth[ino])
      modifies this
      ensures Valid() && truth == old(truth)
      ensures trees.Keys == old(trees).Keys + {ino}
      ensures forall i :: i in trees && i != ino ==> trees[i] == old(trees)[i]
      ensures
        var t := if ino in old(trees) then old(trees)[ino].(noExtent := false) else NewTree();
        if stored.len > 0 && t.nodes == [] && alloc then
          && Extents(trees[ino].nodes) == [stored] && trees[ino].largest == stored
          && lru == old(lru) + [Ref(ino, trees[ino].nodes[0].id)]
        else trees[ino] == t && lru == old(lru)
    {
      hide LruInv, GoodTrees, WorkInv, AllAgree, Agrees;
      // __grab_extent_tree
      var t := if ino in trees then trees[ino].(noExtent := false) else NewTree();
      ghost var base := Base(lru, nextId);
      var w := Work(t, lru, nextId);
      GrabInv(trees, lru, nextId, truth, ino, t);
      if stored.len > 0 && t.nodeCnt == 0 && alloc {
        w := FirstNode(w, ino, stored);
        FirstNodeGood(t, lru, nextId, ino, stored, truth[ino], base);
      }
      LeaveTree(trees, lru, nextId, truth, ino, w, truth[ino]);
      assert truth[ino := truth[ino]] == truth;
      trees, lru, nextId := trees[ino := w.t], w.lru, w.nextId;
    }

    /** f2fs_update_extent_tree_range; `dirtied` asks for the inode to be written. */
    method Update(ino: Ino, fofs: nat, blkaddr: nat, len: nat, allocSplit: bool, allocInsert: bool, ghost bm: BlockMap)
      returns (dirtied: bool)
      requires Valid() && ino in truth
      requires blkaddr != 0 ==> len > 0
      requires ExtentUpdate.Announced(truth[ino], bm, fofs, blkaddr, len)
      modifies this
      ensures Valid() && truth == old(truth)[ino := bm]
      ensures trees.Keys == old(trees).Keys
      ensures forall i :: i in trees && i != ino ==> trees[i] == old(trees)[i]
      ensures ino in trees && old(trees)[ino].noExtent ==> trees[ino] == old(trees)[ino]
      ensures ino in trees && !old(trees)[ino].noExtent ==>
        var t := old(trees)[ino];
        UpdatedTo(t, trees[ino],
                  ExtentUpdate.Update(Extents(t.nodes), t.largest, fofs, blkaddr, len, allocSplit, allocInsert))
      // a mapped update in use that does not give up hits on its whole range with the new addresses
      ensures ino in trees && !trees[ino].noExtent && blkaddr != 0 && allocInsert ==>
        AllHit(Extents(trees[ino].nodes), Extent(fofs, blkaddr, len))
      // outside the range the pages that survive the cut still hit, at their blocks, and no others
      ensures ino in trees && !old(trees)[ino].noExtent && !trees[ino].noExtent ==>
        KeepsOutside(Extents(old(trees)[ino].nodes), Extents(trees[ino].nodes), fofs, fofs + len, allocSplit)
      // no node made or cut by the update is longer than `largest`
      ensures ino in trees && !old(trees)[ino].noExtent && !trees[ino].noExtent && len > 0 ==>
        var xs, ys := Extents(old(trees)[ino].nodes), Extents(trees[ino].nodes);
        forall x :: x in ys && x !in xs ==> x.len <= trees[ino].largest.len
      // the range becomes the most recently used and the cached node; other trees keep their order on the list
      ensures ino in trees && !trees[ino].noExtent && blkaddr != 0 && allocInsert ==>
        RecentlyMapped(trees[ino], lru, ino, Extent(fofs, blkaddr, len))
      ensures Others(lru, ino) == Others(old(lru), ino)
      ensures ino in trees && !old(trees)[ino].noExtent ==>
        var was := old(trees)[ino].largest;
        dirtied <==> trees[ino].largest != was || trees[ino].noExtent || (fofs < End(was) && fofs + len > was.fofs)
      ensures ino !in trees || old(trees)[ino].noExtent ==> !dirtied && lru == old(lru)
    {
      hide TreeInv, LruInv, ExtentUpdate.Update, AllAgree, Agrees, ExtentUpdate.Announced, UpdatedTo, NoDup, HasId,
        Others,
        RecentlyMapped, KeepsOutside, Extents;
      dirtied := false;
      if ino in trees {
        var t := trees[ino];
        if t.noExtent {
          EmptyGood(t, nextId, truth[ino], bm);
        } else {
          EnterTree(trees, lru, nextId, truth, ino);
          var w;
          w, dirtied :=
            UpdateTree(Work(t, lru, nextId), ino, fofs, blkaddr, len, allocSplit, allocInsert, Base(lru, nextId));
          UpdateGood(t, w, fofs, blkaddr, len, allocSplit, allocInsert, nextId, truth[ino], bm);
          LeaveTree(trees, lru, nextId, truth, ino, w, bm);
          RangeHits(t, w.t, fofs, blkaddr, len, allocSplit, allocInsert);
          RangeKeeps(t, w.t, fofs, blkaddr, len, allocSplit, allocInsert);
          trees, lru, nextId := trees[ino := w.t], w.lru, w.nextId;
        }
      }
      truth := truth[ino := bm];
    }

    /** f2fs_lookup_extent_tree: `largest` first, then `cached_en`, then the tree. */
    method Lookup(ino: Ino, page: nat) returns (hit: Option<Extent>)
      requires Valid() && ino in trees
      modifies `trees, `lru
      ensures Valid()
      ensures trees.Keys == old(trees).Keys
      ensures forall i :: i in trees && i != ino ==> trees[i] == old(trees)[i]
      ensures trees[ino] == old(trees)[ino].(cached := trees[ino].cached)
      // a hit agrees with the block map on all its pages
      ensures hit.Some? ==> Covers(hit.value, page) && Agrees(hit.value, truth[ino])
      // and there is one exactly when the page is cached
      ensures hit.Some? <==> Covers(old(trees)[ino].largest, page) || CoversPage(Extents(old(trees)[ino].nodes), page)
      // a node that hits becomes the cached one and the most recently used
      ensures hit.Some? && !Covers(old(trees)[ino].largest, page) ==>
        && trees[ino].cached.Some?
        && lru == Without(old(lru), Ref(ino, trees[ino].cached.value)) + [Ref(ino, trees[ino].cached.value)]
        && Node(trees[ino].cached.value, hit.value) in trees[ino].nodes
      ensures hit.None? || Covers(old(trees)[ino].largest, page) ==> lru == old(lru) && trees == old(trees)
    {
      hide TreeInv, ListInv, LruInv, Rank, Arrange, InOrder, FindId, HasId, Ordered, CoversPage, NoDup, Agrees, Without;
      var t := trees[ino];
      EnterTree(trees, lru, nextId, truth, ino);
      if Covers(t.largest, page) {
        return Some(t.largest);
      }
      var w := Work(t, lru, nextId);
      InvOrdered(w);
      // __lookup_rb_tree_fast, then __lookup_rb_tree_slow
      var c := CachedRank(t);
      var rank: Option<nat> := None;
      if c.Some? && Covers(t.nodes[c.value].ei, page) {
        rank := c;
      } else {
        rank := LookupSlow(Arrange(t.nodes), page);
      }
      HitFacts(t.nodes, page, rank);
      if rank.None? {
        return None;
      }
      ghost var base := Base(lru, nextId);
      TouchNodeInv(w, ino, base, rank.value);
      TouchedGood(w, ino, rank.value, truth[ino], base);
      w := TouchNode(w, ino, rank.value);
      LeaveTree(trees, lru, nextId, truth, ino, w, truth[ino]);
      assert truth[ino := truth[ino]] == truth;
      trees, lru := trees[ino := w.t], w.lru;
      return Some(t.nodes[rank.value].ei);
    }

    /** f2fs_drop_extent_tree. */
    method Drop(ino: Ino) returns (dirtied: bool)
      requires Valid() && ino in trees
      modifies `trees, `lru
      ensures Valid()
      ensures trees.Keys == old(trees).Keys
      ensures forall i :: i in trees && i != ino ==> trees[i] == old(trees)[i]
      ensures trees[ino].nodes == [] && trees[ino].largest.len == 0 && trees[ino].noExtent
      ensures dirtied <==> old(trees)[ino].largest.len != 0
      ensures lru == Others(old(lru), ino)
    {
      hide TreeInv, ListInv, LruInv, Ordered, NoDup, Others;
      EnterTree(trees, lru, nextId, truth, ino);
      var w, count := FreeTree(Work(trees[ino], lru, nextId), ino, Base(lru, nextId));
      dirtied := w.t.largest.len != 0;
      ghost var freed := w;
      w := w.(t := w.t.(noExtent := true, largest := w.t.largest.(len := 0)));
      SameNodes(freed, w, ino, Base(lru, nextId));
      OthersRemain(w, ino, Base(lru, nextId));
      ClearedGood(w.t, nextId, truth[ino]);
      LeaveTree(trees, lru, nextId, truth, ino, w, truth[ino]);
      assert truth[ino := truth[ino]] == truth;
      trees, lru := trees[ino := w.t], w.lru;
    }

    /** f2fs_destroy_extent_node: the nodes go, `largest` stays. */
    method DestroyNodes(ino: Ino) returns (count: nat)
      requires Valid() && ino in trees
      modifies `trees, `lru
      ensures Valid()
      ensures trees == old(trees)[ino := old(trees)[ino].(nodes := [], nodeCnt := 0, cached := None)]
      ensures count == |old(trees)[ino].nodes|
      ensures lru == Others(old(lru), ino)
    {
      hide TreeInv, ListInv, LruInv, Ordered, NoDup, Agrees, Others;
      EnterTree(trees, lru, nextId, truth, ino);
      FreeFacts(Work(trees[ino], lru, nextId), ino, Base(lru, nextId));
      var w;
      w, count := FreeTree(Work(trees[ino], lru, nextId), ino, Base(lru, nextId));
      OthersRemain(w, ino, Base(lru, nextId));
      LeaveTree(trees, lru, nextId, truth, ino, w, truth[ino]);
      assert truth[ino := truth[ino]] == truth;
      trees, lru := trees[ino := w.t], w.lru;
    }

    /** The head of the LRU list goes, off its tree and off the list. */
    method EvictHead()
      requires Valid() && lru != []
      modifies `trees, `lru
      ensures Valid() && lru == old(lru)[1..] && trees.Keys == old(trees).Keys
      ensures forall i :: i in trees ==> Evicted(old(trees)[i], trees[i])
      ensures forall i :: i in trees && i != old(lru)[0].ino ==> trees[i] == old(trees)[i]
    {
      hide TreeInv, ListInv, Ordered, NoDup, LruInv, GoodTree, HasId;
      var en := lru[0];
      ListHead(trees, lru);
      EnterTree(trees, lru, nextId, truth, en.ino);
      forall i | i in trees ensures Evicted(trees[i], trees[i]) {
        EvictedRefl(trees[i]);
      }
      var w := Work(trees[en.ino], lru, nextId);
      ghost var base := Base(lru, nextId);
      var rank := FindId(w.t.nodes, en.id);
      ReleaseNodeInv(w, en.ino, base, rank.value);
      EvictGood(w, en.ino, rank.value, truth[en.ino], base, trees[en.ino]);
      w := ReleaseNode(w, en.ino, rank.value);
      LeaveTree(trees, lru, nextId, truth, en.ino, w, truth[en.ino]);
      assert truth[en.ino := truth[en.ino]] == truth;
      trees, lru := trees[en.ino := w.t], w.lru;
    }

    /** The LRU part of f2fs_shrink_extent_tree; trees in `busy` are locked by someone else. */
    method Shrink(nrShrink: nat, busy: set<Ino>) returns (count: nat)
      requires Valid()
      modifies `trees, `lru
      ensures Valid()
      ensures count <= nrShrink
      ensures trees.Keys == old(trees).Keys
      // eviction only removes nodes; the shortcuts and what the other nodes say are untouched
      ensures forall i :: i in trees ==> Evicted(old(trees)[i], trees[i])
      ensures forall i :: i in trees && i in busy ==> trees[i] == old(trees)[i]
      ensures |lru| == |old(lru)| - count
      // from the head of the list on, passing over locked trees
      ensures lru == Aged(old(lru), busy, nrShrink)
      ensures busy == {} ==> count == Min(nrShrink, |old(lru)|) && lru == old(lru)[count..]
    {
      hide TreeInv, ListInv, Ordered, NoDup, LruInv, GoodTree, HasId, Evicted, GoodTrees;
      count := 0;
      var remained := nrShrink;
      forall i | i in trees ensures Evicted(trees[i], trees[i]) {
        EvictedRefl(trees[i]);
      }
      while remained > 0 && lru != []
        invariant Valid() && truth == old(truth) && nextId == old(nextId)
        invariant count + remained <= nrShrink
        invariant trees.Keys == old(trees).Keys
        invariant forall i :: i in trees ==> Evicted(old(trees)[i], trees[i])
        invariant forall i :: i in trees && i in busy ==> trees[i] == old(trees)[i]
        invariant |lru| == |old(lru)| - count
        invariant Aged(old(lru), busy, nrShrink) == Aged(lru, busy, remained)
        decreases remained
      {
        if lru[0].ino in busy {
          RotateInv(trees, lru);
          lru := lru[1..] + [lru[0]];
        } else {
          ghost var before := trees;
          EvictHead();
          forall i | i in trees ensures Evicted(old(trees)[i], trees[i]) {
            EvictedTrans(old(trees)[i], before[i], trees[i]);
          }
          count := count + 1;
        }
        remained := remained - 1;
      }
      AgedFree(old(lru), nrShrink);
    }
  }

  lemma RangeHits(t: Tree, t': Tree, fofs: nat, blkaddr: nat, len: nat, allocSplit: bool, allocInsert: bool)
    requires UpdatedTo(t, t',
                       ExtentUpdate.Update(Extents(t.nodes), t.largest, fofs, blkaddr, len, allocSplit, allocInsert))
    ensures !t'.noExtent && blkaddr != 0 && allocInsert ==> AllHit(Extents(t'.nodes), Extent(fofs, blkaddr, len))
  {
    hide ExtentUpdate.Update, AllHit;
    if !t'.noExtent && blkaddr != 0 && allocInsert {
      ExtentUpdate.UpdateHits(Extents(t.nodes), t.largest, fofs, blkaddr, len, allocSplit);
    }
  }

  /** Outside lo .. hi, `ys` maps the pages that `xs` maps and that survive the cut, to the same blocks. */
  ghost predicate KeepsOutside(xs: seq<Extent>, ys: seq<Extent>, lo: nat, hi: nat, alloc: bool) {
    forall p: nat, b: int :: !(lo <= p < hi) ==> (HitsAt(ys, p, b) <==> KeptAt(xs, lo, hi, alloc, p, b))
  }

  lemma RangeKeeps(t: Tree, t': Tree, fofs: nat, blkaddr: nat, len: nat, allocSplit: bool, allocInsert: bool)
    requires UpdatedTo(t, t',
                       ExtentUpdate.Update(Extents(t.nodes), t.largest, fofs, blkaddr, len, allocSplit, allocInsert))
    ensures !t'.noExtent ==> KeepsOutside(Extents(t.nodes), Extents(t'.nodes), fofs, fofs + len, allocSplit)
    ensures !t'.noExtent && len > 0 ==>
      forall x :: x in Extents(t'.nodes) && x !in Extents(t.nodes) ==> x.len <= t'.largest.len
  {
    hide ExtentUpdate.Update, HitsAt, KeptAt, Extents;
    if !t'.noExtent {
      var xs := Extents(t.nodes);
      forall p: nat, b: int | !(fofs <= p < fofs + len)
        ensures HitsAt(Extents(t'.nodes), p, b) <==> KeptAt(xs, fofs, fofs + len, allocSplit, p, b)
      {
        ExtentUpdate.UpdateKeeps(xs, t.largest, fofs, blkaddr, len, allocSplit, allocInsert, p, b);
      }
      if len > 0 {
        ExtentUpdate.LargestIsLongest(xs, t.largest, fofs, blkaddr, len, allocSplit, allocInsert);
      }
    }
  }

  /** The LRU list after n entries were taken from its head: those of locked trees go to the tail. */
  function Aged(lru: seq<Ref>, busy: set<Ino>, n: nat): seq<Ref>
    decreases n
  {
    if n == 0 || lru == [] then lru
    else if lru[0].ino in busy then Aged(lru[1..] + [lru[0]], busy, n - 1)
    else Aged(lru[1..], busy, n - 1)
  }

  /** The entries of locked trees. */
  function Locked(lru: seq<Ref>, busy: set<Ino>): seq<Ref> {
    if lru == [] then [] else (if lru[0].ino in busy then [lru[0]] else []) + Locked(lru[1..], busy)
  }

  /** Of the n oldest entries those of locked trees move to the tail, in order, and the others go. */
  lemma {:induction false} AgedLocked(lru: seq<Ref>, busy: set<Ino>, n: nat)
    requires n <= |lru|
    ensures Aged(lru, busy, n) == lru[n..] + Locked(lru[..n], busy)
  {
    AgedBehind(lru, [], busy, n);
    assert lru + [] == lru && lru[n..] + [] == lru[n..];
  }

  lemma {:induction false} AgedBehind(lru: seq<Ref>, tail: seq<Ref>, busy: set<Ino>, n: nat)
    requires n <= |lru|
    ensures Aged(lru + tail, busy, n) == lru[n..] + tail + Locked(lru[..n], busy)
    decreases n
  {
    if n == 0 {
      assert lru[..0] == [] && lru[0..] == lru;
    } else {
      var rest, more := lru[1..], if lru[0].ino in busy then tail + [lru[0]] else tail;
      assert (lru + tail)[0] == lru[0] && (lru + tail)[1..] == rest + tail;
      assert rest + tail + [lru[0]] == rest + (tail + [lru[0]]);
      AgedBehind(rest, more, busy, n - 1);
      assert lru[..n][1..] == rest[..n - 1] && lru[..n][0] == lru[0] && rest[n - 1..] == lru[n..];
      assert lru[n..] + more + Locked(rest[..n - 1], busy) == lru[n..] + tail + Locked(lru[..n], busy);
    }
  }

  /** With no tree locked the least recently used entries go. */
  lemma {:induction false} AgedFree(lru: seq<Ref>, n: nat)
    ensures Aged(lru, {}, n) == lru[Min(n, |lru|)..]
    decreases n
  {
    if n > 0 && lru != [] {
      AgedFree(lru[1..], n - 1);
    }
  }

  /** `t'` is `t` with some nodes gone. */
  ghost predicate Evicted(t: Tree, t': Tree) {
    && t'.largest == t.largest && t'.noExtent == t.noExtent
    && (forall n :: n in t'.nodes ==> n in t.nodes)
    && (t'.cached == t.cached || t'.cached.None?)
  }

  lemma EvictedTrans(a: Tree, b: Tree, c: Tree)
    requires Evicted(a, b) && Evicted(b, c)
    ensures Evicted(a, c)
  {
  }

  lemma EvictedRefl(t: Tree)
    ensures Evicted(t, t)
  {
  }

  lemma ListHead(trees: map<Ino, Tree>, lru: seq<Ref>)
    requires LruInv(trees, lru) && lru != []
    ensures lru[0].ino in trees && HasId(trees[lru[0].ino].nodes, lru[0].id)
  {
    assert lru[0] in lru;
  }

  lemma RotateInv(trees: map<Ino, Tree>, lru: seq<Ref>)
    requires LruInv(trees, lru) && lru != []
    ensures LruInv(trees, lru[1..] + [lru[0]])
  {
    assert lru[0] !in lru[1..];
    AppendNoDup(lru[1..], lru[0]);
    assert lru == [lru[0]] + lru[1..];
  }

  lemma EvictGood(w: Work, ino: Ino, k: nat, bm: BlockMap, base: Base, t0: Tree)
    requires GoodTree(w.t, w.nextId, bm) && k < |w.t.nodes| && WorkInv(w, ino, base) && Evicted(t0, w.t)
    ensures GoodTree(ReleaseNode(w, ino, k).t, w.nextId, bm)
    ensures Evicted(t0, ReleaseNode(w, ino, k).t)
    ensures w.lru != [] && w.lru[0] == Ref(ino, w.t.nodes[k].id) ==> ReleaseNode(w, ino, k).lru == w.lru[1..]
  {
    ReleaseNodeInv(w, ino, base, k);
    var t' := ReleaseNode(w, ino, k).t;
    assert Extents(t'.nodes) == Spliced(Extents(w.t.nodes), k, []);
  }

  lemma ClearedGood(t: Tree, nextId: nat, bm: BlockMap)
    requires TreeInv(t, nextId) && t.nodes == [] && t.largest.len == 0 && !t.largestUpdated
    ensures GoodTree(t, nextId, bm)
  {
  }

  function CoveringRank(nodes: seq<Node>, page: nat): Option<nat> {
    var k := Rank(Extents(nodes), page);
    if k < |nodes| && Covers(nodes[k].ei, page) then Some(k) else None
  }

  lemma HitFacts(nodes: seq<Node>, page: nat, rank: Option<nat>)
    requires Ordered(Extents(nodes))
    requires rank.Some? ==> rank.value < |nodes|
    requires (rank.Some? && Covers(nodes[rank.value].ei, page)) || rank == CoveringRank(nodes, page)
    ensures rank.Some? <==> CoversPage(Extents(nodes), page)
    ensures rank.Some? ==> Covers(nodes[rank.value].ei, page)
  {
    var xs := Extents(nodes);
    if rank.Some? {
      assert Covers(xs[rank.value], page);
    } else {
      var k := Rank(xs, page);
      forall i | 0 <= i < |xs| ensures !Covers(xs[i], page) {
        assert i < k ==> End(xs[i]) <= page;
        assert i > k ==> End(xs[k]) <= xs[i].fofs;
      }
    }
  }

  lemma TouchedGood(w: Work, ino: Ino, k: nat, bm: BlockMap, base: Base)
    requires GoodTree(w.t, w.nextId, bm) && k < |w.t.nodes| && WorkInv(w, ino, base)
    ensures GoodTree(TouchNode(w, ino, k).t, w.nextId, bm)
    ensures Agrees(w.t.nodes[k].ei, bm)
  {
    TouchNodeInv(w, ino, base, k);
    assert Extents(w.t.nodes)[k] == w.t.nodes[k].ei;
  }
}
