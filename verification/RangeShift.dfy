/**
 Collapsing and inserting page ranges of a file.

 Blocks are moved in chunks.  A block the last checkpoint does not know is moved by re-linking its
 address; a block the checkpoint knows is copied to a new page and its old slot is freed.  Source
 and target of one chunk may overlap.  The content of the file ends up simply shifted.
 */
module RangeShift {
  import opened Prelude
  import Arith

  /** NEW_ADDR, or a block on the device. */
  datatype Addr = NewAddr | Block(n: nat)

  /** A mapped page: the address in its dnode slot and the content it stands for. */
  datatype Page<D> = Page(addr: Addr, data: D)

  type Pages<D> = map<nat, Page<D>>

  function At<D>(pages: Pages<D>, p: nat): Option<Page<D>> {
    if p in pages then Some(pages[p]) else None
  }

  /** For each page, the blocks the last checkpoint knows by the time that page's slot is read. */
  type Known = nat -> nat -> bool

  /** How f2fs_is_checkpointed_data sees an address; a reserved slot counts as checkpointed. */
  predicate Checkpointed(known: nat -> bool, addr: Addr) {
    match addr
    case NewAddr => true
    case Block(n) => known(n)
  }

  predicate Relinked<D>(known: nat -> bool, slot: Option<Page<D>>) {
    slot.Some? && !Checkpointed(known, slot.value.addr)
  }

  /** The arrays __read_out_blkaddrs fills for slots src .. src + len. */
  ghost predicate ReadOut<D>(known: Known, pages: Pages<D>, src: nat, saved: seq<Option<Page<D>>>, replace: seq<bool>) {
    && |replace| == |saved|
    && (forall i :: 0 <= i < |saved| ==>
        saved[i] == At(pages, src + i) && replace[i] == Relinked(known(src + i), saved[i]))
  }

  /** The slots that are to be re-linked have been cleared, the others not touched. */
  ghost predicate Cleared<D>(pages: Pages<D>, pages': Pages<D>, src: nat, replace: seq<bool>) {
    forall p: nat :: At(pages', p) == if src <= p < src + |replace| && replace[p - src] then None else At(pages, p)
  }

  /** Some page of the range would be moved by re-linking. */
  ghost predicate NeedsRelink<D>(known: Known, pages: Pages<D>, lo: nat, hi: nat) {
    exists p: nat :: lo <= p < hi && Relinked(known(p), At(pages, p))
  }

  /** What is moved by re-linking: pages with a block of their own that the checkpoint does not know. */
  lemma NeedsRelinkIs<D>(known: Known, pages: Pages<D>, lo: nat, hi: nat)
    ensures NeedsRelink(known, pages, lo, hi) <==>
      exists p: nat, b: nat :: lo <= p < hi && p in pages && pages[p].addr == Block(b) && !known(p)(b)
  {
    if p: nat :| lo <= p < hi && Relinked(known(p), At(pages, p)) {
      assert pages[p].addr == Block(pages[p].addr.n);
    }
    if p: nat, b: nat :| lo <= p < hi && p in pages && pages[p].addr == Block(b) && !known(p)(b) {
      assert Relinked(known(p), At(pages, p));
    }
  }

  // ----- no block has two owners

  /** No two pages name the same block. */
  ghost predicate NoShare<D>(pages: Pages<D>) {
    forall p, q :: p in pages && q in pages && p != q && pages[p].addr.Block? ==> pages[p].addr != pages[q].addr
  }

  /** The blocks still to be re-linked, from index i on, are owned by no page and are different. */
  ghost predicate Pending<D>(pages: Pages<D>, saved: seq<Option<Page<D>>>, replace: seq<bool>, i: nat) {
    && |replace| == |saved|
    && (forall k :: i <= k < |saved| && replace[k] ==> saved[k].Some? && saved[k].value.addr.Block?)
    && (forall k, p :: i <= k < |saved| && replace[k] && p in pages ==> pages[p].addr != saved[k].value.addr)
    && (forall k, l :: i <= k < l < |saved| && replace[k] && replace[l] ==> saved[k].value.addr != saved[l].value.addr)
  }

  /** Every block `after` names is named by `before`, at a place that is still in use or given up. */
  ghost predicate NoNewBlocks<D>(before: Pages<D>, after: Pages<D>) {
    forall p :: p in after && after[p].addr.Block? ==> p in before && before[p].addr == after[p].addr
  }

  lemma FewerBlocks<D>(before: Pages<D>, after: Pages<D>, saved: seq<Option<Page<D>>>, replace: seq<bool>, i: nat,
                       j: nat)
    requires NoShare(before) && Pending(before, saved, replace, i) && NoNewBlocks(before, after) && i <= j
    ensures NoShare(after) && Pending(after, saved, replace, j)
  {
  }

  lemma PendingStart<D>(known: Known, cur: Pages<D>, cur1: Pages<D>, src: nat, saved: seq<Option<Page<D>>>,
                        replace: seq<bool>)
    requires NoShare(cur) && ReadOut(known, cur, src, saved, replace) && Cleared(cur, cur1, src, replace)
    ensures NoShare(cur1) && Pending(cur1, saved, replace, 0)
  {
    forall p | p in cur1 ensures p in cur && cur1[p] == cur[p] && (src <= p < src + |replace| ==> !replace[p - src]) {
      assert At(cur1, p) == if src <= p < src + |replace| && replace[p - src] then None else At(cur, p);
    }
    forall k | 0 <= k < |saved| && replace[k]
      ensures src + k in cur && saved[k] == Some(cur[src + k]) && saved[k].value.addr.Block?
    {
      assert saved[k] == At(cur, src + k) && Relinked(known(src + k), saved[k]);
    }
  }

  /** How many slots a page's dnode has from that page on. */
  type Span = nat -> nat

  /** One more slot is read and, if it is to be re-linked, cleared. */
  lemma ReadStep<D>(known: Known, pages: Pages<D>, pages': Pages<D>, src: nat, saved: seq<Option<Page<D>>>,
                    replace: seq<bool>)
    requires ReadOut(known, pages, src, saved, replace) && Cleared(pages, pages', src, replace)
    ensures
      var q := src + |saved|;
      var slot := At(pages, q);
      var relink := Relinked(known(src + |saved|), slot);
      && At(pages', q) == slot
      && ReadOut(known, pages, src, saved + [slot], replace + [relink])
      && Cleared(pages, if relink then pages' - {q} else pages', src, replace + [relink])
  {
    var q := src + |saved|;
    var slot := At(pages, q);
    assert At(pages', q) == slot;
    var relink := Relinked(known(src + |saved|), slot);
    var pages2 := if relink then pages' - {q} else pages';
    forall p: nat
      ensures At(pages2, p) ==
        if src <= p < src + |replace| + 1 && (replace + [relink])[p - src] then None else At(pages, p)
    {
      assert At(pages', p) == if src <= p < src + |replace| && replace[p - src] then None else At(pages, p);
    }
  }

  lemma ReadStart<D>(known: Known, pages: Pages<D>, src: nat)
    ensures ReadOut(known, pages, src, [], []) && Cleared(pages, pages, src, [])
  {
  }

  lemma NoneYet<D>(known: Known, pages: Pages<D>, lo: nat)
    ensures !NeedsRelink(known, pages, lo, lo)
  {
  }

  lemma OneMoreSlot<D>(known: Known, pages: Pages<D>, lo: nat, q: nat, hi: nat)
    requires lo <= q < hi
    ensures NeedsRelink(known, pages, lo, q + 1) <==>
      NeedsRelink(known, pages, lo, q) || Relinked(known(q), At(pages, q))
    ensures NeedsRelink(known, pages, lo, q + 1) ==> NeedsRelink(known, pages, lo, hi)
  {
    if Relinked(known(q), At(pages, q)) {
      assert lo <= q < q + 1 && Relinked(known(q), At(pages, q));
    }
  }

  /** What is read ahead of the moves is what was there at the start. */
  lemma SameNeeds<D>(known: Known, pages: Pages<D>, cur: Pages<D>, lo: nat, mid: nat, hi: nat)
    requires lo <= mid <= hi && forall p: nat :: mid <= p < hi ==> At(cur, p) == At(pages, p)
    ensures NeedsRelink(known, pages, lo, hi) <==>
      NeedsRelink(known, pages, lo, mid) || NeedsRelink(known, cur, mid, hi)
  {
    if p: nat :| lo <= p < hi && Relinked(known(p), At(pages, p)) {
      if mid <= p {
        assert Relinked(known(p), At(cur, p));
      }
    }
  }

  /**
   __read_out_blkaddrs, dnode after dnode; the slots of a missing dnode read as holes.
   False in LFS mode when a block would have to be re-linked.
   */
  method ReadOutBlkaddrs<D>(pages: Pages<D>, known: Known, lfs: bool, span: Span, src: nat, len: nat)
    returns (ok: bool, pages': Pages<D>, saved: seq<Option<Page<D>>>, replace: seq<bool>)
    requires forall p: nat :: span(p) > 0
    ensures ok ==> |saved| == len && ReadOut(known, pages, src, saved, replace) && Cleared(pages, pages', src, replace)
    ensures ok <==> !(lfs && NeedsRelink(known, pages, src, src + len))
  {
    hide ReadOut, Cleared, Relinked, NeedsRelink;
    NoneYet(known, pages, src);
    pages', saved, replace := pages, [], [];
    ReadStart(known, pages, src);
    while |saved| < len
      invariant |saved| <= len
      invariant ReadOut(known, pages, src, saved, replace) && Cleared(pages, pages', src, replace)
      invariant lfs ==> !NeedsRelink(known, pages, src, src + |saved|)
      decreases len - |saved|
    {
      var off := src + |saved|;
      var done := Min(span(off), len - |saved|);
      ghost var before := |saved|;
      for i := 0 to done
        invariant |saved| == before + i
        invariant ReadOut(known, pages, src, saved, replace) && Cleared(pages, pages', src, replace)
        invariant lfs ==> !NeedsRelink(known, pages, src, src + |saved|)
      {
        OneMoreSlot(known, pages, src, src + |saved|, src + len);
        ReadStep(known, pages, pages', src, saved, replace);
        var slot := At(pages', off + i);
        var relink := Relinked(known(src + |saved|), slot);
        if relink {
          if lfs {
            return false, pages', saved, replace;
          }
          pages' := pages' - {off + i};
        }
        saved, replace := saved + [slot], replace + [relink];
      }
    }
    ok := true;
  }

  // ----- the size

  /** `size'` is the size after pages `touched` were written: it grows to the end of the last of them. */
  ghost predicate Reaches(size: nat, size': nat, block: nat, touched: set<nat>) {
    && size <= size'
    && (forall p :: p in touched ==> EndOf(p, block) <= size')
    && (size' == size || exists p :: p in touched && EndOf(p, block) == size')
  }

  /** First byte past a page. */
  function EndOf(p: nat, block: nat): nat { (p + 1) * block }

  /** Writing a page pushes i_size to its end, if it lies beyond. */
  function Pushed(size: nat, p: nat, block: nat): nat {
    if size < EndOf(p, block) then EndOf(p, block) else size
  }

  lemma ReachesNone(size: nat, block: nat)
    ensures Reaches(size, size, block, {})
  {
  }

  lemma ReachesPage(size: nat, size': nat, block: nat, touched: set<nat>, p: nat)
    requires Reaches(size, size', block, touched)
    ensures Reaches(size, Pushed(size', p, block), block, touched + {p})
  {
    hide EndOf;
    if size' < EndOf(p, block) {
      assert p in touched + {p};
    } else if size' != size {
      var q :| q in touched && EndOf(q, block) == size';
      assert q in touched + {p};
    }
  }

  lemma ReachesJoin(size: nat, size1: nat, size2: nat, block: nat, a: set<nat>, b: set<nat>)
    requires Reaches(size, size1, block, a) && Reaches(size1, size2, block, b)
    ensures Reaches(size, size2, block, a + b)
  {
    hide EndOf;
    if size2 != size1 {
      var q :| q in b && EndOf(q, block) == size2;
      assert q in a + b;
    } else if size1 != size {
      var q :| q in a && EndOf(q, block) == size1;
      assert q in a + b;
    }
  }

  predicate WritesTo<D>(saved: seq<Option<Page<D>>>, dst: nat, i: nat, full: bool, p: nat)
    requires i <= |saved|
  {
    dst <= p < dst + i && (full || saved[p - dst].Some?)
  }

  /** The targets written for the first i saved slots; holes are passed over unless `full`. */
  ghost function Written<D>(saved: seq<Option<Page<D>>>, dst: nat, i: nat, full: bool): set<nat>
    requires i <= |saved|
  {
    set p: nat | p < dst + i && WritesTo(saved, dst, i, full, p)
  }

  lemma WrittenStep<D>(saved: seq<Option<Page<D>>>, dst: nat, i: nat, full: bool)
    requires i < |saved|
    ensures Written(saved, dst, i + 1, full) ==
      if full || saved[i].Some? then Written(saved, dst, i, full) + {dst + i} else Written(saved, dst, i, full)
  {
    forall p: nat ensures p in Written(saved, dst, i + 1, full) <==>
      p in Written(saved, dst, i, full) || (p == dst + i && (full || saved[i].Some?))
    {
    }
  }

  // ----- placing the blocks

  /** A target slot: it shows the saved content; a saved hole clears it, or (not `full`) may leave it. */
  predicate Shows<D(==)>(slot: Option<Page<D>>, want: Option<Page<D>>, before: Option<Page<D>>, full: bool) {
    if want.Some? then slot.Some? && slot.value.data == want.value.data
    else slot.None? || (!full && slot == before)
  }

  /** Slots below index i are placed, their sources are vacated, everything else is as in `from`. */
  ghost predicate ClonedUpTo<D>(from: Pages<D>, pages: Pages<D>, saved: seq<Option<Page<D>>>, src: nat, dst: nat,
                                i: nat, full: bool)
  {
    && i <= |saved|
    && (forall p: nat :: dst <= p < dst + i ==> Shows(At(pages, p), saved[p - dst], At(from, p), full))
    && (forall p: nat :: src <= p < src + i && !(dst <= p < dst + i) ==> At(pages, p).None?)
    && (forall p: nat :: !(dst <= p < dst + i) && !(src <= p < src + i) ==> At(pages, p) == At(from, p))
  }

  /** Source and target do not meet ahead of the loop. */
  predicate Apart(src: nat, dst: nat, len: nat) {
    dst < src || src + len <= dst
  }

  /** The saved slots are what `from` shows, with the re-linked ones cleared. */
  ghost predicate Sources<D>(from: Pages<D>, saved: seq<Option<Page<D>>>, replace: seq<bool>, src: nat) {
    && |replace| == |saved|
    && (forall i :: 0 <= i < |saved| ==>
        (replace[i] ==> saved[i].Some?) && At(from, src + i) == if replace[i] then None else saved[i])
  }

  /** Pages moved by re-linking are at their targets with the block they had. */
  ghost predicate RelinkedAt<D>(pages: Pages<D>, saved: seq<Option<Page<D>>>, replace: seq<bool>, dst: nat, i: nat) {
    i <= |replace| == |saved| && forall k :: 0 <= k < i && replace[k] ==> At(pages, dst + k) == saved[k]
  }

  /** The address a copied page gets at slot p: the one there, unless p is a source below `gone` and vacated. */
  function AddrThere<D>(from: Pages<D>, src: nat, gone: nat, p: nat): Addr {
    if p in from && !(src <= p < gone) then from[p].addr else NewAddr
  }

  /** Pages moved by copying are at their targets, in the blocks the targets had or in none yet. */
  ghost predicate CopiedAt<D>(from: Pages<D>, pages: Pages<D>, saved: seq<Option<Page<D>>>, replace: seq<bool>,
                              src: nat,
                              dst: nat, i: nat)
  {
    && i <= |replace| == |saved|
    && (forall k :: 0 <= k < i && saved[k].Some? && !replace[k] ==>
        At(pages, dst + k) == Some(Page(AddrThere(from, src, src + k, dst + k), saved[k].value.data)))
  }

  /** Truncate the target slot, then link the saved address if there is one to link. */
  function Relink<D>(pages: Pages<D>, p: nat, slot: Option<Page<D>>): Pages<D> {
    if slot.Some? then pages[p := slot.value] else pages - {p}
  }

  /** Copy the page and punch its source. */
  function Copy<D>(pages: Pages<D>, q: nat, p: nat): Pages<D>
    requires q in pages
  {
    pages[p := Page(if p in pages then pages[p].addr else NewAddr, pages[q].data)] - {q}
  }

  lemma RelinkStep<D>(from: Pages<D>, pages: Pages<D>, saved: seq<Option<Page<D>>>, replace: seq<bool>, src: nat,
                      dst: nat, i: nat, full: bool)
    requires ClonedUpTo(from, pages, saved, src, dst, i, full) && Sources(from, saved, replace, src) &&
      Apart(src, dst, |saved|)
    requires i < |saved| && (replace[i] || saved[i].None?)
    ensures ClonedUpTo(from, Relink(pages, dst + i, saved[i]), saved, src, dst, i + 1, full)
  {
    var pages' := Relink(pages, dst + i, saved[i]);
    forall p: nat | p != dst + i ensures At(pages', p) == At(pages, p) {
    }
    assert At(pages', dst + i) == saved[i];
    assert At(from, src + i).None?;
  }

  /** The next page does not disturb those re-linked before. */
  lemma RelinkedMore<D>(pages: Pages<D>, pages': Pages<D>, saved: seq<Option<Page<D>>>, replace: seq<bool>, src: nat,
                        dst: nat, i: nat)
    requires RelinkedAt(pages, saved, replace, dst, i) && i < |saved| && Apart(src, dst, |saved|)
    requires forall p: nat :: p != dst + i && p != src + i ==> At(pages', p) == At(pages, p)
    requires replace[i] ==> At(pages', dst + i) == saved[i]
    ensures RelinkedAt(pages', saved, replace, dst, i + 1)
  {
    forall k | 0 <= k < i + 1 && replace[k] ensures At(pages', dst + k) == saved[k] {
      assert k < i ==> At(pages', dst + k) == At(pages, dst + k);
    }
  }

  lemma CopiedMore<D>(from: Pages<D>, pages: Pages<D>, pages': Pages<D>, saved: seq<Option<Page<D>>>,
                      replace: seq<bool>,
                      src: nat, dst: nat, i: nat)
    requires CopiedAt(from, pages, saved, replace, src, dst, i) && i < |saved| && Apart(src, dst, |saved|)
    requires forall p: nat :: p != dst + i && p != src + i ==> At(pages', p) == At(pages, p)
    requires saved[i].Some? && !replace[i] ==>
      At(pages', dst + i) == Some(Page(AddrThere(from, src, src + i, dst + i), saved[i].value.data))
    ensures CopiedAt(from, pages', saved, replace, src, dst, i + 1)
  {
    forall k | 0 <= k < i + 1 && saved[k].Some? && !replace[k]
      ensures At(pages', dst + k) == Some(Page(AddrThere(from, src, src + k, dst + k), saved[k].value.data))
    {
      assert k < i ==> At(pages', dst + k) == At(pages, dst + k);
    }
  }

  /** The slot a page is copied to is as at the start, or a source that has been vacated. */
  lemma CopyTarget<D>(from: Pages<D>, pages: Pages<D>, saved: seq<Option<Page<D>>>, src: nat, dst: nat, i: nat,
                      full: bool)
    requires ClonedUpTo(from, pages, saved, src, dst, i, full) && i < |saved| && Apart(src, dst, |saved|)
    requires src + i in pages
    ensures
      var pages' := Copy(pages, src + i, dst + i);
      At(pages', dst + i) == Some(Page(AddrThere(from, src, src + i, dst + i), pages[src + i].data))
  {
    var p := dst + i;
    assert src <= p < src + i ==> At(pages, p).None?;
    assert !(src <= p < src + i) ==> At(pages, p) == At(from, p);
  }

  lemma RelinkOwns<D>(pages: Pages<D>, saved: seq<Option<Page<D>>>, replace: seq<bool>, p: nat, i: nat)
    requires NoShare(pages) && Pending(pages, saved, replace, i) && i < |saved| && (replace[i] || saved[i].None?)
    ensures NoShare(Relink(pages, p, saved[i])) && Pending(Relink(pages, p, saved[i]), saved, replace, i + 1)
  {
    if saved[i].None? {
      FewerBlocks(pages, Relink(pages, p, saved[i]), saved, replace, i, i + 1);
    }
  }

  lemma CopyOwns<D>(pages: Pages<D>, saved: seq<Option<Page<D>>>, replace: seq<bool>, q: nat, p: nat, i: nat)
    requires NoShare(pages) && Pending(pages, saved, replace, i) && q in pages
    ensures NoShare(Copy(pages, q, p)) && Pending(Copy(pages, q, p), saved, replace, i + 1)
  {
    FewerBlocks(pages, Copy(pages, q, p), saved, replace, i, i + 1);
  }

  lemma SkipOwns<D>(pages: Pages<D>, saved: seq<Option<Page<D>>>, replace: seq<bool>, i: nat)
    requires NoShare(pages) && Pending(pages, saved, replace, i)
    ensures Pending(pages, saved, replace, i + 1)
  {
  }

  lemma RelinkChanges<D>(pages: Pages<D>, p: nat, slot: Option<Page<D>>)
    ensures At(Relink(pages, p, slot), p) == slot
    ensures forall q: nat :: q != p ==> At(Relink(pages, p, slot), q) == At(pages, q)
  {
  }

  lemma CopyChanges<D>(pages: Pages<D>, q: nat, p: nat)
    requires q in pages
    ensures forall r: nat :: r != p && r != q ==> At(Copy(pages, q, p), r) == At(pages, r)
  {
  }

  lemma SkipStep<D>(from: Pages<D>, pages: Pages<D>, saved: seq<Option<Page<D>>>, replace: seq<bool>, src: nat,
                    dst: nat, i: nat)
    requires ClonedUpTo(from, pages, saved, src, dst, i, false) && Sources(from, saved, replace, src) &&
      src + |saved| <= dst
    requires i < |saved| && saved[i].None?
    ensures ClonedUpTo(from, pages, saved, src, dst, i + 1, false)
  {
    assert At(from, src + i).None?;
    assert At(pages, dst + i) == At(from, dst + i);
  }

  lemma CopyStep<D>(from: Pages<D>, pages: Pages<D>, saved: seq<Option<Page<D>>>, replace: seq<bool>, src: nat,
                    dst: nat, i: nat, full: bool)
    requires ClonedUpTo(from, pages, saved, src, dst, i, full) && Sources(from, saved, replace, src) &&
      Apart(src, dst, |saved|)
    requires i < |saved| && !replace[i] && saved[i].Some?
    ensures src + i in pages && pages[src + i] == saved[i].value
    ensures ClonedUpTo(from, Copy(pages, src + i, dst + i), saved, src, dst, i + 1, full)
  {
    assert At(from, src + i) == saved[i];
    assert At(pages, src + i) == At(from, src + i);
    var pages' := Copy(pages, src + i, dst + i);
    forall p: nat | p != dst + i && p != src + i ensures At(pages', p) == At(pages, p) {
    }
  }

  /** __clone_blkaddrs. */
  method CloneBlkaddrs<D>(pages: Pages<D>, size: nat, block: nat, span: Span, saved: seq<Option<Page<D>>>,
                          replace: seq<bool>, src: nat, dst: nat, full: bool)
    returns (pages': Pages<D>, size': nat, ghost touched: set<nat>)
    requires forall p: nat :: span(p) > 0
    requires Sources(pages, saved, replace, src) && Apart(src, dst, |saved|) && (!full ==> src + |saved| <= dst)
    ensures ClonedUpTo(pages, pages', saved, src, dst, |saved|, full)
    ensures RelinkedAt(pages', saved, replace, dst, |saved|)
    ensures CopiedAt(pages, pages', saved, replace, src, dst, |saved|)
    ensures NoShare(pages) && Pending(pages, saved, replace, 0) ==> NoShare(pages')
    ensures Reaches(size, size', block, touched) && touched <= Written(saved, dst, |saved|, true)
    // a hole next to a page that is re-linked is written like it, any other is passed over
    ensures (forall i :: 0 <= i < |replace| ==> !replace[i]) ==> touched == Written(saved, dst, |saved|, full)
  {
    hide ClonedUpTo, Sources, Reaches, Written, EndOf, RelinkedAt, Relink, Copy, At, NoShare, Pending, CopiedAt,
      AddrThere;
    ghost var owned := NoShare(pages) && Pending(pages, saved, replace, 0);
    touched := {};
    ReachesNone(size, block);
    WrittenNone(saved, dst);
    SourcesLen(pages, saved, replace, src);
    CloneStart(pages, saved, src, dst, full);
    RelinkedNone(pages, saved, replace, src, dst);
    pages', size' := pages, size;
    var i := 0;
    while i < |saved|
      invariant 0 <= i <= |saved|
      decreases |saved| - i
      invariant ClonedUpTo(pages, pages', saved, src, dst, i, full) && RelinkedAt(pages', saved, replace, dst, i)
      invariant owned ==> NoShare(pages') && Pending(pages', saved, replace, i)
      invariant CopiedAt(pages, pages', saved, replace, src, dst, i)
      invariant Reaches(size, size', block, touched) && touched <= Written(saved, dst, i, true)
      invariant (forall k :: 0 <= k < |replace| ==> !replace[k]) ==> touched == Written(saved, dst, i, full)
    {
      WrittenStep(saved, dst, i, full);
      WrittenStep(saved, dst, i, true);
      if saved[i].None? && !full {
        SkipStep(pages, pages', saved, replace, src, dst, i);
        HoleIsNotRelinked(pages, saved, replace, src, i);
        if owned {
          SkipOwns(pages', saved, replace, i);
        }
        RelinkedMore(pages', pages', saved, replace, src, dst, i);
        CopiedMore(pages, pages', pages', saved, replace, src, dst, i);
        i := i + 1;
        continue;
      }
      if replace[i] || saved[i].None? {
        var ilen := Min(span(dst + i), |saved| - i);
        var more := true;
        ghost var first := i;
        while more
          invariant 0 <= i <= |saved| && 0 <= ilen <= |saved| - i
          invariant more ==> ilen > 0 && i < |saved| && (replace[i] || saved[i].None?)
          invariant ClonedUpTo(pages, pages', saved, src, dst, i, full) && RelinkedAt(pages', saved, replace, dst, i)
          invariant owned ==> NoShare(pages') && Pending(pages', saved, replace, i)
          invariant CopiedAt(pages, pages', saved, replace, src, dst, i)
          invariant i >= first && (more || i > first)
          invariant Reaches(size, size', block, touched) && touched <= Written(saved, dst, i, true)
          invariant full || replace[first]
          invariant full && (forall k :: 0 <= k < |replace| ==> !replace[k]) ==> touched == Written(saved, dst, i, full)
          decreases ilen, more
        {
          WrittenStep(saved, dst, i, true);
          ReachesPage(size, size', block, touched, dst + i);
          touched := touched + {dst + i};
          RelinkStep(pages, pages', saved, replace, src, dst, i, full);
          RelinkChanges(pages', dst + i, saved[i]);
          if owned {
            RelinkOwns(pages', saved, replace, dst + i, i);
          }
          RelinkedMore(pages', Relink(pages', dst + i, saved[i]), saved, replace, src, dst, i);
          CopiedMore(pages, pages', Relink(pages', dst + i, saved[i]), saved, replace, src, dst, i);
          pages' := Relink(pages', dst + i, saved[i]);
          i := i + 1;
          size' := Pushed(size', dst + i - 1, block);
          ilen := ilen - 1;
          more := ilen > 0 && (replace[i] || saved[i].None?);
        }
      } else {
        CopyStep(pages, pages', saved, replace, src, dst, i, full);
        ReachesPage(size, size', block, touched, dst + i);
        touched := touched + {dst + i};
        CopyChanges(pages', src + i, dst + i);
        if owned {
          CopyOwns(pages', saved, replace, src + i, dst + i, i);
        }
        RelinkedMore(pages', Copy(pages', src + i, dst + i), saved, replace, src, dst, i);
        CopyTarget(pages, pages', saved, src, dst, i, full);
        CopiedMore(pages, pages', Copy(pages', src + i, dst + i), saved, replace, src, dst, i);
        pages' := Copy(pages', src + i, dst + i);
        size' := Pushed(size', dst + i, block);
        i := i + 1;
      }
    }
  }

  lemma WrittenNone<D>(saved: seq<Option<Page<D>>>, dst: nat)
    ensures Written(saved, dst, 0, true) == Written(saved, dst, 0, false) == {}
  {
  }

  lemma CloneStart<D>(pages: Pages<D>, saved: seq<Option<Page<D>>>, src: nat, dst: nat, full: bool)
    ensures ClonedUpTo(pages, pages, saved, src, dst, 0, full)
  {
  }

  lemma RelinkedNone<D>(pages: Pages<D>, saved: seq<Option<Page<D>>>, replace: seq<bool>, src: nat, dst: nat)
    requires |replace| == |saved|
    ensures RelinkedAt(pages, saved, replace, dst, 0) && CopiedAt(pages, pages, saved, replace, src, dst, 0)
  {
  }

  lemma HoleIsNotRelinked<D>(from: Pages<D>, saved: seq<Option<Page<D>>>, replace: seq<bool>, src: nat, i: nat)
    requires Sources(from, saved, replace, src) && i < |saved| && saved[i].None?
    ensures !replace[i]
  {
  }

  lemma SourcesLen<D>(from: Pages<D>, saved: seq<Option<Page<D>>>, replace: seq<bool>, src: nat)
    requires Sources(from, saved, replace, src)
    ensures |replace| == |saved|
  {
  }

  // ----- chunk after chunk

  /** The slots src .. src + len, as they were. */
  function Window<D>(pages: Pages<D>, src: nat, len: nat): seq<Option<Page<D>>> {
    seq(len, i requires 0 <= i < len => At(pages, src + i))
  }

  lemma ChunkSources<D>(known: Known, pages: Pages<D>, pages': Pages<D>, src: nat, saved: seq<Option<Page<D>>>,
                        replace: seq<bool>)
    requires ReadOut(known, pages, src, saved, replace) && Cleared(pages, pages', src, replace)
    ensures Sources(pages', saved, replace, src)
  {
    forall i | 0 <= i < |saved| ensures At(pages', src + i) == if replace[i] then None else saved[i] {
      var p := src + i;
      assert At(pages', p) == if src <= p < src + |replace| && replace[p - src] then None else At(pages, p);
    }
  }

  /** One chunk more. */
  lemma ChunkStep<D>(known: Known, pages: Pages<D>, cur: Pages<D>, cur1: Pages<D>, cur2: Pages<D>, src: nat, dst: nat,
                     len: nat, m: nat, saved: seq<Option<Page<D>>>, replace: seq<bool>, full: bool)
    requires m + |saved| <= len && Apart(src, dst, len) && (!full ==> src + len <= dst)
    requires ClonedUpTo(pages, cur, Window(pages, src, len), src, dst, m, full)
    requires ReadOut(known, cur, src + m, saved, replace) && Cleared(cur, cur1, src + m, replace)
    requires ClonedUpTo(cur1, cur2, saved, src + m, dst + m, |saved|, full)
    ensures ClonedUpTo(pages, cur2, Window(pages, src, len), src, dst, m + |saved|, full)
  {
    var n := m + |saved|;
    var w := Window(pages, src, len);
    forall i | 0 <= i < |saved| ensures saved[i] == w[m + i] {
      assert At(cur, src + m + i) == At(pages, src + m + i);
    }
    forall p: nat | !(src + m <= p < src + n) ensures At(cur1, p) == At(cur, p) {
    }
    forall p: nat | dst <= p < dst + n ensures Shows(At(cur2, p), w[p - dst], At(pages, p), full) {
      if dst + m <= p {
        assert Shows(At(cur2, p), saved[p - (dst + m)], At(cur1, p), full);
        if !full {
          assert At(cur1, p) == At(cur, p) == At(pages, p);
        }
      } else {
        assert Shows(At(cur, p), w[p - dst], At(pages, p), full);
      }
    }
  }

  /** Of the first m pages from src on, those to re-link have moved to dst and kept their blocks. */
  ghost predicate KeptBlocks<D>(known: Known, pages: Pages<D>, pages': Pages<D>, src: nat, dst: nat, m: nat) {
    forall p: nat :: src <= p < src + m && Relinked(known(p), At(pages, p)) ==>
      At(pages', dst + (p - src)) == At(pages, p)
  }

  lemma KeptNone<D>(known: Known, pages: Pages<D>, src: nat, dst: nat)
    ensures KeptBlocks(known, pages, pages, src, dst, 0)
  {
  }

  lemma ChunkKeeps<D>(known: Known, pages: Pages<D>, cur: Pages<D>, cur1: Pages<D>, cur2: Pages<D>, src: nat, dst: nat,
                      len: nat, m: nat, saved: seq<Option<Page<D>>>, replace: seq<bool>, full: bool)
    requires m + |saved| <= len && Apart(src, dst, len)
    requires ClonedUpTo(pages, cur, Window(pages, src, len), src, dst, m, full)
    requires ReadOut(known, cur, src + m, saved, replace) && Cleared(cur, cur1, src + m, replace)
    requires ClonedUpTo(cur1, cur2, saved, src + m, dst + m, |saved|, full)
    requires KeptBlocks(known, pages, cur, src, dst, m) && RelinkedAt(cur2, saved, replace, dst + m, |saved|)
    ensures KeptBlocks(known, pages, cur2, src, dst, m + |saved|)
  {
    hide ClonedUpTo, ReadOut, Cleared, RelinkedAt, Window, At, Relinked;
    ReadLen(known, cur, src + m, saved, replace);
    forall p: nat | src <= p < src + m + |saved| && Relinked(known(p), At(pages, p))
      ensures At(cur2, dst + (p - src)) == At(pages, p)
    {
      if p < src + m {
        assert At(cur, dst + (p - src)) == At(pages, p);
        ChunkLeaves(cur, cur1, cur2, src + m, dst + m, saved, replace, full, dst + (p - src));
      } else {
        NotYetMoved(pages, cur, src, dst, len, m, full, p);
        ChunkRelinks(known, cur, cur2, src + m, dst + m, saved, replace, p - (src + m));
        assert dst + m + (p - (src + m)) == dst + (p - src);
      }
    }
  }

  lemma ReadLen<D>(known: Known, pages: Pages<D>, src: nat, saved: seq<Option<Page<D>>>, replace: seq<bool>)
    requires ReadOut(known, pages, src, saved, replace)
    ensures |replace| == |saved|
  {
  }

  /** A chunk touches its sources and targets only. */
  lemma ChunkLeaves<D>(cur: Pages<D>, cur1: Pages<D>, cur2: Pages<D>, src: nat, dst: nat,
                       saved: seq<Option<Page<D>>>, replace: seq<bool>, full: bool, q: nat)
    requires |replace| == |saved| && Cleared(cur, cur1, src, replace)
    requires ClonedUpTo(cur1, cur2, saved, src, dst, |saved|, full)
    requires !(src <= q < src + |saved|) && !(dst <= q < dst + |saved|)
    ensures At(cur2, q) == At(cur, q)
  {
    assert At(cur1, q) == At(cur, q);
  }

  lemma NotYetMoved<D>(pages: Pages<D>, cur: Pages<D>, src: nat, dst: nat, len: nat, m: nat, full: bool, p: nat)
    requires m <= len && Apart(src, dst, len) && src + m <= p < src + len
    requires ClonedUpTo(pages, cur, Window(pages, src, len), src, dst, m, full)
    ensures At(cur, p) == At(pages, p)
  {
  }

  lemma ChunkRelinks<D>(known: Known, cur: Pages<D>, cur2: Pages<D>, src: nat, dst: nat,
                        saved: seq<Option<Page<D>>>, replace: seq<bool>, k: nat)
    requires ReadOut(known, cur, src, saved, replace) && RelinkedAt(cur2, saved, replace, dst, |saved|)
    requires k < |saved| && Relinked(known(src + k), At(cur, src + k))
    ensures At(cur2, dst + k) == At(cur, src + k)
  {
    assert saved[k] == At(cur, src + k) && replace[k];
  }

  /** The slots of the next chunk are as they were at the start. */
  lemma ChunkNeeds<D>(known: Known, pages: Pages<D>, cur: Pages<D>, src: nat, dst: nat, len: nat, m: nat, olen: nat,
                      full: bool)
    requires m + olen <= len && Apart(src, dst, len)
    requires ClonedUpTo(pages, cur, Window(pages, src, len), src, dst, m, full)
    ensures NeedsRelink(known, pages, src, src + m + olen) <==>
      NeedsRelink(known, pages, src, src + m) || NeedsRelink(known, cur, src + m, src + m + olen)
    ensures NeedsRelink(known, pages, src, src + m + olen) ==> NeedsRelink(known, pages, src, src + len)
  {
    forall p: nat | src + m <= p < src + m + olen ensures At(cur, p) == At(pages, p) {
    }
    SameNeeds(known, pages, cur, src, src + m, src + m + olen);
    SameNeeds(known, pages, pages, src, src + m + olen, src + len);
  }

  // ----- how far an LFS run gets

  /** End of the chunk that page q of lo .. hi falls into. */
  function ChunkEnd(q: nat, lo: nat, hi: nat, chunk: nat): (e: nat)
    requires lo <= q < hi && chunk > 0
    ensures q < e <= hi
    decreases hi - lo
  {
    var end := lo + Min(chunk, hi - lo);
    if q < end then end else ChunkEnd(q, end, hi, chunk)
  }

  /** A chunk ends at e. */
  ghost predicate ChunkBorder(lo: nat, e: nat, hi: nat, chunk: nat)
    requires chunk > 0
  {
    && lo <= e <= hi
    && (forall q: nat :: lo <= q < e ==> ChunkEnd(q, lo, hi, chunk) <= e)
    && (forall q: nat :: e <= q < hi ==> ChunkEnd(q, lo, hi, chunk) == ChunkEnd(q, e, hi, chunk))
  }

  lemma BorderStart(lo: nat, hi: nat, chunk: nat)
    requires lo <= hi && chunk > 0
    ensures ChunkBorder(lo, lo, hi, chunk)
  {
  }

  lemma BorderNext(lo: nat, e: nat, hi: nat, chunk: nat)
    requires chunk > 0 && ChunkBorder(lo, e, hi, chunk) && e < hi
    ensures ChunkBorder(lo, e + Min(chunk, hi - e), hi, chunk)
  {
    var e' := e + Min(chunk, hi - e);
    forall q: nat | lo <= q < hi
      ensures q < e' ==> ChunkEnd(q, lo, hi, chunk) <= e'
      ensures q >= e' ==> ChunkEnd(q, lo, hi, chunk) == ChunkEnd(q, e', hi, chunk)
    {
      if q >= e {
        assert ChunkEnd(q, lo, hi, chunk) == ChunkEnd(q, e, hi, chunk);
      }
    }
  }

  ghost predicate LfsMovesTo<D>(known: Known, pages: Pages<D>, src: nat, dst: nat, len: nat, chunk: nat, full: bool,
                                p: nat)
    requires chunk > 0
  {
    && dst <= p < dst + len
    && (full || src + (p - dst) in pages)
    && !NeedsRelink(known, pages, src, ChunkEnd(src + (p - dst), src, src + len, chunk))
  }

  /** In LFS mode the pages moved are those whose chunk, and the chunks before it, have nothing to re-link. */
  ghost function LfsTargets<D>(known: Known, pages: Pages<D>, src: nat, dst: nat, len: nat, chunk: nat,
                               full: bool): set<nat>
    requires chunk > 0
  {
    set p: nat | p < dst + len && LfsMovesTo(known, pages, src, dst, len, chunk, full, p)
  }

  lemma NeedsWider<D>(known: Known, pages: Pages<D>, lo: nat, hi: nat, lo': nat, hi': nat)
    requires lo' <= lo && hi <= hi'
    ensures NeedsRelink(known, pages, lo, hi) ==> NeedsRelink(known, pages, lo', hi')
  {
  }

  lemma TargetsAre<D>(known: Known, pages: Pages<D>, src: nat, dst: nat, len: nat, m: nat, chunk: nat, full: bool)
    requires chunk > 0 && m <= len && ChunkBorder(src, src + m, src + len, chunk) &&
      !NeedsRelink(known, pages, src, src + m)
    requires m == len || NeedsRelink(known, pages, src, src + m + Min(chunk, len - m))
    ensures LfsTargets(known, pages, src, dst, len, chunk, full) == Written(Window(pages, src, len), dst, m, full)
  {
    hide NeedsRelink;
    var w := Window(pages, src, len);
    forall p: nat ensures LfsMovesTo(known, pages, src, dst, len, chunk, full, p) <==> WritesTo(w, dst, m, full, p) {
      if dst <= p < dst + len {
        var q := src + (p - dst);
        var e := ChunkEnd(q, src, src + len, chunk);
        assert w[p - dst] == At(pages, q);
        if p < dst + m {
          NeedsWider(known, pages, src, e, src, src + m);
        } else {
          FirstChunk(q, src + m, src + len, chunk);
          NeedsWider(known, pages, src, src + m + Min(chunk, len - m), src, e);
        }
      }
    }
  }

  lemma FirstChunk(q: nat, lo: nat, hi: nat, chunk: nat)
    requires lo <= q < hi && chunk > 0
    ensures ChunkEnd(q, lo, hi, chunk) >= lo + Min(chunk, hi - lo)
  {
  }

  /** What a chunk reads is the matching part of the window, and in LFS mode it re-links nothing. */
  lemma ChunkSaved<D>(known: Known, pages: Pages<D>, cur: Pages<D>, src: nat, dst: nat, len: nat, m: nat,
                      saved: seq<Option<Page<D>>>, replace: seq<bool>, full: bool)
    requires m + |saved| <= len && Apart(src, dst, len)
    requires ClonedUpTo(pages, cur, Window(pages, src, len), src, dst, m, full)
    requires ReadOut(known, cur, src + m, saved, replace)
    ensures Written(Window(pages, src, len), dst, m + |saved|, full) ==
      Written(Window(pages, src, len), dst, m, full) + Written(saved, dst + m, |saved|, full)
    ensures !NeedsRelink(known, cur, src + m, src + m + |saved|) ==> forall i :: 0 <= i < |replace| ==> !replace[i]
  {
    var w := Window(pages, src, len);
    forall i | 0 <= i < |saved| ensures saved[i] == w[m + i] {
      assert At(cur, src + m + i) == At(pages, src + m + i);
    }
    forall i | 0 <= i < |replace| ensures replace[i] ==> NeedsRelink(known, cur, src + m, src + m + |saved|) {
      var p := src + m + i;
      assert replace[i] == Relinked(known(p), At(cur, p));
    }
  }

  lemma WrittenInside<D>(saved: seq<Option<Page<D>>>, dst: nat, lo: nat, hi: nat)
    requires lo <= dst && dst + |saved| <= hi
    ensures forall p :: p in Written(saved, dst, |saved|, true) ==> lo <= p < hi
  {
  }

  /** An LFS run stopped after m slots: they are moved, and they are the chunks before the refused one. */
  ghost predicate StoppedAt<D>(known: Known, pages: Pages<D>, pages': Pages<D>, src: nat, dst: nat, len: nat,
                               chunk: nat, full: bool, m: nat)
    requires chunk > 0
  {
    var w := Window(pages, src, len);
    && m <= len
    && ClonedUpTo(pages, pages', w, src, dst, m, full)
    && LfsTargets(known, pages, src, dst, len, chunk, full) == Written(w, dst, m, full)
  }

  /** __exchange_data_block; `chunk` is 4 * ADDRS_PER_BLOCK. */
  method ExchangeDataBlock<D>(pages: Pages<D>, size: nat, block: nat, known: Known, lfs: bool, span: Span, chunk: nat,
                              src: nat, dst: nat, len: nat, full: bool)
    returns (ok: bool, pages': Pages<D>, size': nat, ghost touched: set<nat>)
    requires chunk > 0 && Apart(src, dst, len) && (!full ==> src + len <= dst)
    requires forall p: nat :: span(p) > 0
    ensures ok ==> ClonedUpTo(pages, pages', Window(pages, src, len), src, dst, len, full)
    ensures ok ==> KeptBlocks(known, pages, pages', src, dst, len)
    ensures NoShare(pages) ==> NoShare(pages')
    ensures ok <==> !(lfs && NeedsRelink(known, pages, src, src + len))
    ensures !ok ==> exists m: nat :: StoppedAt(known, pages, pages', src, dst, len, chunk, full, m)
    ensures Reaches(size, size', block, touched) && forall p :: p in touched ==> dst <= p < dst + len
    ensures lfs ==> touched == LfsTargets(known, pages, src, dst, len, chunk, full)
  {
    hide ClonedUpTo, ReadOut, Cleared, Sources, Window, NeedsRelink, Reaches, Written, LfsTargets, ChunkBorder,
      RelinkedAt, KeptBlocks, NoShare, Pending;
    NoneYet(known, pages, src);
    ghost var w := Window(pages, src, len);
    CloneStart(pages, w, src, dst, full);
    KeptNone(known, pages, src, dst);
    WindowLen(pages, src, len);
    WrittenNone(w, dst);
    ReachesNone(size, block);
    BorderStart(src, src + len, chunk);
    pages', size', touched := pages, size, {};
    var m := 0;
    while m < len
      invariant 0 <= m <= len
      invariant ClonedUpTo(pages, pages', w, src, dst, m, full) && KeptBlocks(known, pages, pages', src, dst, m)
      invariant NoShare(pages) ==> NoShare(pages')
      invariant lfs ==> !NeedsRelink(known, pages, src, src + m)
      invariant Reaches(size, size', block, touched) && forall p :: p in touched ==> dst <= p < dst + len
      invariant lfs ==> touched == Written(w, dst, m, full)
      invariant ChunkBorder(src, src + m, src + len, chunk)
    {
      var olen := Min(chunk, len - m);
      ChunkNeeds(known, pages, pages', src, dst, len, m, olen, full);
      BorderNext(src, src + m, src + len, chunk);
      var fine, cur1, saved, replace := ReadOutBlkaddrs(pages', known, lfs, span, src + m, olen);
      if !fine {
        TargetsAre(known, pages, src, dst, len, m, chunk, full);
        assert StoppedAt(known, pages, pages', src, dst, len, chunk, full, m);
        return false, pages', size', touched;
      }
      ChunkSources(known, pages', cur1, src + m, saved, replace);
      if NoShare(pages) {
        PendingStart(known, pages', cur1, src + m, saved, replace);
      }
      ChunkSaved(known, pages, pages', src, dst, len, m, saved, replace, full);
      var cur2, size2;
      ghost var more;
      cur2, size2, more := CloneBlkaddrs(cur1, size', block, span, saved, replace, src + m, dst + m, full);
      ChunkStep(known, pages, pages', cur1, cur2, src, dst, len, m, saved, replace, full);
      ChunkKeeps(known, pages, pages', cur1, cur2, src, dst, len, m, saved, replace, full);
      WrittenInside(saved, dst + m, dst, dst + len);
      ReachesJoin(size, size', size2, block, touched, more);
      pages', size', touched := cur2, size2, touched + more;
      m := m + olen;
    }
    if lfs {
      TargetsAre(known, pages, src, dst, len, len, chunk, full);
    }
    ok := true;
  }

  lemma WindowLen<D>(pages: Pages<D>, src: nat, len: nat)
    ensures |Window(pages, src, len)| == len
  {
  }

  // ----- collapse and insert

  /** What a reader sees at a page; None is a hole. */
  function Content<D>(pages: Pages<D>, p: nat): Option<D> {
    if p in pages then Some(pages[p].data) else None
  }

  /** Page p once the pages start .. start + delta of the first nr are cut out. */
  function CutAt<D>(before: Pages<D>, start: nat, delta: nat, nr: nat, p: nat): Option<D> {
    if p < start then Content(before, p)
    else if p + delta < nr then Content(before, p + delta)
    else None
  }

  ghost predicate CutOut<D>(before: Pages<D>, after: Pages<D>, start: nat, delta: nat, nr: nat) {
    forall p: nat :: Content(after, p) == CutAt(before, start, delta, nr, p)
  }

  /** Page p once a hole of delta pages is put in at start and what lies past the first nr is gone. */
  function SpreadAt<D>(before: Pages<D>, start: nat, delta: nat, nr: nat, p: nat): Option<D> {
    if p < start then Content(before, p)
    else if p < start + delta || p - delta >= nr then None
    else Content(before, p - delta)
  }

  ghost predicate SpreadOut<D>(before: Pages<D>, after: Pages<D>, start: nat, delta: nat, nr: nat) {
    forall p: nat :: Content(after, p) == SpreadAt(before, start, delta, nr, p)
  }

  /** f2fs_truncate_blocks, page by page. */
  function TruncatePages<D>(pages: Pages<D>, nr: nat): Pages<D> {
    map p | p in pages && p < nr :: pages[p]
  }

  lemma AfterExchangeAt<D>(pages: Pages<D>, pages': Pages<D>, start: nat, delta: nat, nr: nat, p: nat)
    requires delta > 0 && start + delta <= nr
    requires ClonedUpTo(pages, pages', Window(pages, start + delta, nr - start - delta), start + delta, start,
                        nr - start - delta, true)
    ensures p < start ==> Content(pages', p) == Content(pages, p)
    ensures start <= p < nr - delta ==> Content(pages', p) == Content(pages, p + delta)
  {
    var w := Window(pages, start + delta, nr - start - delta);
    if start <= p < nr - delta {
      assert Shows(At(pages', p), w[p - start], At(pages, p), true);
      assert w[p - start] == At(pages, p + delta);
    } else {
      assert p < start ==> At(pages', p) == At(pages, p);
    }
  }

  lemma AfterExchange<D>(pages: Pages<D>, pages': Pages<D>, start: nat, delta: nat, nr: nat)
    requires delta > 0 && start + delta <= nr
    requires ClonedUpTo(pages, pages', Window(pages, start + delta, nr - start - delta), start + delta, start,
                        nr - start - delta, true)
    ensures CutOut(pages, TruncatePages(pages', nr - delta), start, delta, nr)
  {
    hide ClonedUpTo, Window;
    var after := TruncatePages(pages', nr - delta);
    forall p: nat ensures Content(after, p) == CutAt(pages, start, delta, nr, p) {
      AfterExchangeAt(pages, pages', start, delta, nr, p);
    }
  }

  /** Page p once only the pages that belong at `moved` have come down by delta. */
  function PartCutAt<D>(before: Pages<D>, delta: nat, moved: set<nat>, p: nat): Option<D> {
    if p in moved then Content(before, p + delta)
    else if p >= delta && p - delta in moved then None
    else Content(before, p)
  }

  ghost predicate PartCut<D>(before: Pages<D>, after: Pages<D>, delta: nat, moved: set<nat>) {
    forall p: nat :: Content(after, p) == PartCutAt(before, delta, moved, p)
  }

  lemma AfterStop<D>(known: Known, pages: Pages<D>, pages': Pages<D>, start: nat, delta: nat, len: nat, chunk: nat,
                     m: nat)
    requires chunk > 0 && StoppedAt(known, pages, pages', start + delta, start, len, chunk, true, m)
    ensures PartCut(pages, pages', delta, LfsTargets(known, pages, start + delta, start, len, chunk, true))
  {
    hide LfsTargets, Shows;
    var w := Window(pages, start + delta, len);
    var moved := Written(w, start, m, true);
    forall p: nat ensures Content(pages', p) == PartCutAt(pages, delta, moved, p) {
      assert p in moved <==> WritesTo(w, start, m, true, p);
      assert p >= delta ==> (p - delta in moved <==> WritesTo(w, start, m, true, p - delta));
      if start <= p < start + m {
        assert Shows(At(pages', p), w[p - start], At(pages, p), true);
        ShowsAll(At(pages', p), w[p - start], At(pages, p));
        assert w[p - start] == At(pages, p + delta);
      } else if start + delta <= p < start + delta + m {
        assert At(pages', p).None?;
      } else {
        assert At(pages', p) == At(pages, p);
      }
    }
  }

  lemma ShowsAll<D>(slot: Option<Page<D>>, want: Option<Page<D>>, before: Option<Page<D>>)
    requires Shows(slot, want, before, true)
    ensures slot.Some? <==> want.Some?
    ensures slot.Some? ==> slot.value.data == want.value.data
  {
  }

  lemma TruncateOwns<D>(pages: Pages<D>, nr: nat)
    ensures NoShare(pages) ==> NoShare(TruncatePages(pages, nr))
  {
  }

  lemma KeptBelow<D>(known: Known, pages: Pages<D>, pages': Pages<D>, src: nat, dst: nat, m: nat, nr: nat)
    requires KeptBlocks(known, pages, pages', src, dst, m) && dst + m <= nr
    ensures KeptBlocks(known, pages, TruncatePages(pages', nr), src, dst, m)
  {
    forall p: nat | p < nr ensures At(TruncatePages(pages', nr), p) == At(pages', p) {
    }
  }

  datatype Status = Done | Invalid | Unsupported

  /** f2fs_collapse_range; offset, len and size are in bytes, block is the block size. */
  method CollapseRange<D>(pages: Pages<D>, size: nat, offset: nat, len: nat, known: Known, lfs: bool, span: Span,
                          chunk: nat, block: nat)
    returns (st: Status, pages': Pages<D>, size': nat)
    requires len > 0 && chunk > 0 && block > 0
    requires forall p: nat :: span(p) > 0
    ensures st.Invalid? <==> offset + len >= size || offset % block != 0 || len % block != 0
    ensures st.Invalid? ==> pages' == pages
    ensures st.Done? ==> size' == size - len && CutOut(pages, pages', offset / block, len / block, CeilDiv(size, block))
    ensures !st.Done? ==> size' == size
    ensures !st.Invalid? ==> (offset + len) / block == offset / block + len / block <= CeilDiv(size, block)
    // no block gets a second owner
    ensures NoShare(pages) ==> NoShare(pages')
    // a page the checkpoint does not know keeps its block
    ensures st.Done? ==>
      var start, end := offset / block, (offset + len) / block;
      KeptBlocks(known, pages, pages', end, start, CeilDiv(size, block) - end)
    ensures st.Unsupported? <==>
      !st.Invalid? && lfs && NeedsRelink(known, pages, (offset + len) / block, CeilDiv(size, block))
    // a refused collapse keeps the pages moved before
    ensures st.Unsupported? ==>
      var start, end := offset / block, (offset + len) / block;
      PartCut(pages, pages', len / block, LfsTargets(known, pages, end, start, CeilDiv(size, block) - end, chunk, true))
  {
    hide ClonedUpTo, Window, CutOut, PartCut, StoppedAt, NeedsRelink, Reaches, LfsTargets, KeptBlocks, TruncatePages,
      NoShare;
    if offset + len >= size || offset % block != 0 || len % block != 0 {
      return Invalid, pages, size;
    }
    var start, end, nr := offset / block, (offset + len) / block, CeilDiv(size, block);
    CollapsePages(size, offset, len, block);
    var ok;
    ghost var touched;
    ok, pages', size', touched :=
      ExchangeDataBlock(pages, size, block, known, lfs, span, chunk, end, start, nr - end, true);
    StaysInside(size, size', block, touched, nr);
    if !ok {
      ghost var m: nat :| StoppedAt(known, pages, pages', end, start, nr - end, chunk, true, m);
      AfterStop(known, pages, pages', start, len / block, nr - end, chunk, m);
      return Unsupported, pages', size';
    }
    AfterExchange(pages, pages', start, len / block, nr);
    KeptBelow(known, pages, pages', end, start, nr - end, nr - len / block);
    TruncateOwns(pages', nr - len / block);
    return Done, TruncatePages(pages', CeilDiv(size - len, block)), size - len;
  }

  /**
   A refused collapse of pages start .. end leaves the file as it was exactly if all it moved, and all it
   moved over, are holes.
   */
  lemma RefusedCollapseKeeps<D>(known: Known, before: Pages<D>, after: Pages<D>, start: nat, end: nat, nr: nat,
                                chunk: nat)
    requires chunk > 0 && start < end <= nr
    requires PartCut(before, after, end - start, LfsTargets(known, before, end, start, nr - end, chunk, true))
    ensures
      var moved := LfsTargets(known, before, end, start, nr - end, chunk, true);
      (forall p: nat :: Content(after, p) == Content(before, p)) <==>
      forall p: nat :: p in moved ==> Content(before, p).None? && Content(before, p + (end - start)).None?
  {
    var delta := end - start;
    var moved := LfsTargets(known, before, end, start, nr - end, chunk, true);
    if forall p: nat :: Content(after, p) == Content(before, p) {
      forall p: nat | p in moved ensures Content(before, p).None? && Content(before, p + delta).None? {
        KeptIsHole(before, after, delta, moved, nr, p);
      }
    }
    if forall p: nat :: p in moved ==> Content(before, p).None? && Content(before, p + delta).None? {
      forall p: nat ensures Content(after, p) == Content(before, p) {
        assert Content(after, p) == PartCutAt(before, delta, moved, p);
        if p !in moved && p >= delta && p - delta in moved {
          assert Content(before, p - delta + delta).None?;
        }
      }
    }
  }

  lemma {:induction false} KeptIsHole<D>(before: Pages<D>, after: Pages<D>, delta: nat, moved: set<nat>, top: nat,
                                         p: nat)
    requires delta > 0 && PartCut(before, after, delta, moved) && forall q :: q in moved ==> q < top
    requires p in moved && forall q: nat :: Content(after, q) == Content(before, q)
    ensures Content(before, p).None? && Content(before, p + delta).None?
    decreases top - p
  {
    assert Content(after, p) == PartCutAt(before, delta, moved, p);
    if p + delta in moved {
      KeptIsHole(before, after, delta, moved, top, p + delta);
    } else {
      assert Content(after, p + delta) == PartCutAt(before, delta, moved, p + delta);
    }
  }

  /**
   A refused collapse can leave the file changed: in LFS mode, cutting page 0 out when the checkpoint knows
   page 1 but not the first page of the next chunk.  Page 1 is then at 0 and nothing at 1.
   */
  lemma RefusedCollapseMoves(known: Known, after: Pages<char>, chunk: nat)
    requires chunk > 0
    requires forall p: nat, b: nat :: known(p)(b) <==> b == 10
    requires
      var pages := map[1 := Page(Block(10), 'b'), 1 + chunk := Page(Block(20), 'c')];
      PartCut(pages, after, 1, LfsTargets(known, pages, 1, 0, chunk + 1, chunk, true))
    ensures NeedsRelink(known, map[1 := Page(Block(10), 'b'), 1 + chunk := Page(Block(20), 'c')], 1, chunk + 2)
    ensures Content(after, 0) == Some('b') && Content(after, 1) == None
  {
    var pages := map[1 := Page(Block(10), 'b'), 1 + chunk := Page(Block(20), 'c')];
    var moved := LfsTargets(known, pages, 1, 0, chunk + 1, chunk, true);
    assert Relinked(known(1 + chunk), At(pages, 1 + chunk));
    assert ChunkEnd(1, 1, 2 + chunk, chunk) == 1 + chunk;
    assert !NeedsRelink(known, pages, 1, 1 + chunk);
    assert LfsMovesTo(known, pages, 1, 0, chunk + 1, chunk, true, 0);
    assert 0 in moved;
    assert Content(after, 0) == PartCutAt(pages, 1, moved, 0);
    assert Content(after, 1) == PartCutAt(pages, 1, moved, 1);
    if chunk == 1 {
      assert ChunkEnd(2, 1, 3, 1) == 3;
      assert !LfsMovesTo(known, pages, 1, 0, 2, 1, true, 1);
    }
  }

  /** Pages moved down never reach past the end of the file. */
  lemma StaysInside(size: nat, size': nat, block: nat, touched: set<nat>, nr: nat)
    requires block > 0 && nr == CeilDiv(size, block) && Reaches(size, size', block, touched)
    requires forall p :: p in touched ==> p + 1 < nr
    ensures size' == size
  {
    CeilDivBound(size, block);
    forall p | p in touched ensures EndOf(p, block) < size {
      assert block * (p + 1) < size;
    }
  }

  /** Aligned ranges: byte and page arithmetic agree. */
  lemma CollapsePages(size: nat, offset: nat, len: nat, block: nat)
    requires block > 0 && len > 0 && offset + len < size && offset % block == 0 && len % block == 0
    ensures len / block > 0 && (offset + len) / block == offset / block + len / block < CeilDiv(size, block)
    ensures CeilDiv(size - len, block) == CeilDiv(size, block) - len / block
  {
    assert offset == block * (offset / block);
    assert len == block * (len / block);
    WholePages(size, offset / block, len / block, block);
  }

  lemma WholePages(size: nat, o: nat, l: nat, block: nat)
    requires block > 0 && block * o + block * l < size
    ensures (block * o + block * l) / block == o + l < CeilDiv(size, block)
    ensures CeilDiv(size - block * l, block) == CeilDiv(size, block) - l
  {
    var n := CeilDiv(size, block);
    var r := (size + block - 1) % block;
    assert size + block - 1 == block * n + r;
    MulAdd(block, o, l);
    Arith.DivUnique(block * o + block * l, block, o + l, 0);
    Arith.MulStep(block, n, o + l + 1);
    Arith.MulNext(block, o + l);
    MulAdd(block, n - l, l);
    Arith.DivUnique(size - block * l + block - 1, block, n - l, r);
  }

  lemma MulAdd(d: nat, a: int, b: int)
    ensures d * (a + b) == d * a + d * b
  {
  }

  // ----- insert

  lemma TruncateSpreads<D>(pages: Pages<D>, delta: nat, nr: nat)
    ensures SpreadOut(pages, TruncatePages(pages, nr), nr, delta, nr)
  {
    forall p: nat ensures Content(TruncatePages(pages, nr), p) == SpreadAt(pages, nr, delta, nr, p) {
    }
  }

  lemma InsertAt<D>(cur: Pages<D>, next: Pages<D>, idx: nat, n: nat, m: nat, delta: nat, p: nat)
    requires m <= n <= delta
    requires ClonedUpTo(cur, next, Window(cur, idx, n), idx, idx + delta, m, false)
    ensures idx + delta <= p < idx + delta + m ==>
      Content(next, p) == Content(cur, p - delta) ||
        (Content(cur, p - delta).None? && Content(next, p) == Content(cur, p))
    ensures idx <= p < idx + m ==> Content(next, p).None?
    ensures !(idx + delta <= p < idx + delta + m) && !(idx <= p < idx + m) ==> Content(next, p) == Content(cur, p)
  {
    var w := Window(cur, idx, n);
    if idx + delta <= p < idx + delta + m {
      assert Shows(At(next, p), w[p - (idx + delta)], At(cur, p), false);
      assert w[p - (idx + delta)] == At(cur, p - delta);
    } else if idx <= p < idx + m {
      assert At(next, p).None?;
    } else {
      assert At(next, p) == At(cur, p);
    }
  }

  /**
   Page p once only the pages that belong at `moved` have gone up by delta and what lies past the first nr is
   gone.
   */
  function PartSpreadAt<D>(before: Pages<D>, delta: nat, nr: nat, moved: set<nat>, p: nat): Option<D> {
    if p in moved && p >= delta then Content(before, p - delta)
    else if p + delta in moved || p >= nr then None
    else Content(before, p)
  }

  ghost predicate PartSpread<D>(before: Pages<D>, after: Pages<D>, delta: nat, nr: nat, moved: set<nat>) {
    forall p: nat :: Content(after, p) == PartSpreadAt(before, delta, nr, moved, p)
  }

  /** The next n pages down have been moved up by delta. */
  lemma InsertStep<D>(pages: Pages<D>, cur: Pages<D>, next: Pages<D>, idx: nat, n: nat, delta: nat, nr: nat)
    requires 0 < n <= delta && idx + n <= nr
    requires SpreadOut(pages, cur, idx + n, delta, nr)
    requires ClonedUpTo(cur, next, Window(cur, idx, n), idx, idx + delta, n, false)
    ensures SpreadOut(pages, next, idx, delta, nr)
  {
    hide ClonedUpTo, Window;
    forall p: nat ensures Content(next, p) == SpreadAt(pages, idx, delta, nr, p) {
      InsertAt(cur, next, idx, n, n, delta, p);
      assert Content(cur, p) == SpreadAt(pages, idx + n, delta, nr, p);
      if p >= delta {
        assert Content(cur, p - delta) == SpreadAt(pages, idx + n, delta, nr, p - delta);
      }
    }
  }

  lemma InsertPages(size: nat, offset: nat, len: nat, block: nat)
    requires block > 0 && len > 0 && offset < size && offset % block == 0 && len % block == 0
    ensures len / block > 0 && (offset + len) / block == offset / block + len / block
    ensures offset / block < CeilDiv(size, block)
    ensures CeilDiv(size + len, block) == CeilDiv(size, block) + len / block
  {
    assert offset == block * (offset / block);
    assert len == block * (len / block);
    WholePages(size + len, offset / block, len / block, block);
  }

  /** Pages below idx have not been touched. */
  ghost predicate SameBelow<D>(pages: Pages<D>, cur: Pages<D>, idx: nat) {
    forall p: nat :: p < idx ==> At(cur, p) == At(pages, p)
  }

  lemma TruncateBelow<D>(pages: Pages<D>, nr: nat)
    ensures SameBelow(pages, TruncatePages(pages, nr), nr)
  {
  }

  lemma RoundBelow<D>(pages: Pages<D>, cur: Pages<D>, next: Pages<D>, idx: nat, n: nat, delta: nat)
    requires SameBelow(pages, cur, idx + n) && ClonedUpTo(cur, next, Window(cur, idx, n), idx, idx + delta, n, false)
    ensures SameBelow(pages, next, idx)
  {
  }

  lemma KeptEmpty<D>(known: Known, pages: Pages<D>, pages': Pages<D>, src: nat, dst: nat)
    ensures KeptBlocks(known, pages, pages', src, dst, 0)
  {
  }

  lemma RoundKeeps<D>(known: Known, pages: Pages<D>, cur: Pages<D>, next: Pages<D>, idx: nat, n: nat, delta: nat,
                      nr: nat)
    requires n <= delta && idx + n <= nr && SameBelow(pages, cur, idx + n)
    requires ClonedUpTo(cur, next, Window(cur, idx, n), idx, idx + delta, n, false)
    requires KeptBlocks(known, pages, cur, idx + n, idx + n + delta, nr - (idx + n))
    requires KeptBlocks(known, cur, next, idx, idx + delta, n)
    ensures KeptBlocks(known, pages, next, idx, idx + delta, nr - idx)
  {
    forall p: nat | idx <= p < nr && Relinked(known(p), At(pages, p))
      ensures At(next, idx + delta + (p - idx)) == At(pages, p)
    {
      if p < idx + n {
        assert At(cur, p) == At(pages, p);
        assert At(next, idx + delta + (p - idx)) == At(cur, p);
      } else {
        var q := idx + n + delta + (p - (idx + n));
        assert At(cur, q) == At(pages, p);
        assert At(next, q) == At(cur, q);
      }
    }
  }

  lemma RoundNeeds<D>(known: Known, pages: Pages<D>, cur: Pages<D>, start: nat, idx: nat, end: nat, nr: nat)
    requires start <= idx <= end <= nr && SameBelow(pages, cur, end)
    ensures NeedsRelink(known, pages, idx, nr) <==>
      NeedsRelink(known, cur, idx, end) || NeedsRelink(known, pages, end, nr)
    ensures NeedsRelink(known, pages, idx, nr) ==> NeedsRelink(known, pages, start, nr)
  {
    SameNeeds(known, cur, pages, idx, end, end);
    SameNeeds(known, pages, cur, idx, idx, end);
    NoneYet(known, pages, idx);
    SameNeeds(known, pages, pages, idx, end, nr);
    SameNeeds(known, pages, pages, start, idx, nr);
  }

  /** The round that ends at hi goes down to here. */
  function RoundLo(start: nat, delta: nat, hi: nat): nat
    requires start <= hi
  {
    hi - Min(hi - start, delta)
  }

  /** End of the round in which page q is read, with rounds taken from hi down. */
  function RoundHi(q: nat, start: nat, delta: nat, hi: nat): (r: nat)
    requires start <= q < hi && delta > 0
    ensures q < r <= hi && RoundLo(start, delta, r) <= q
    decreases hi
  {
    if RoundLo(start, delta, hi) <= q then hi else RoundHi(q, start, delta, RoundLo(start, delta, hi))
  }

  /** A round ends at e. */
  ghost predicate RoundBorder(start: nat, delta: nat, e: nat, hi: nat)
    requires delta > 0
  {
    && start <= e <= hi
    && (forall q: nat :: start <= q < e ==> RoundHi(q, start, delta, hi) == RoundHi(q, start, delta, e))
    && (forall q: nat :: e <= q < hi ==> RoundLo(start, delta, RoundHi(q, start, delta, hi)) >= e)
  }

  lemma RoundBorderStart(start: nat, delta: nat, hi: nat)
    requires delta > 0 && start <= hi
    ensures RoundBorder(start, delta, hi, hi)
  {
  }

  lemma RoundBorderNext(start: nat, delta: nat, e: nat, hi: nat)
    requires delta > 0 && RoundBorder(start, delta, e, hi) && start < e
    ensures RoundBorder(start, delta, RoundLo(start, delta, e), hi)
  {
    var lo := RoundLo(start, delta, e);
    forall q: nat | start <= q < hi
      ensures q < lo ==> RoundHi(q, start, delta, hi) == RoundHi(q, start, delta, lo)
      ensures q >= lo ==> RoundLo(start, delta, RoundHi(q, start, delta, hi)) >= lo
    {
      if q < e {
        assert RoundHi(q, start, delta, hi) == RoundHi(q, start, delta, e);
      }
    }
  }

  /**
   Page q is moved before an LFS run is refused: no round above its own and no chunk up to its own has a page
   to re-link.
   */
  ghost predicate MovedEarly<D>(known: Known, pages: Pages<D>, start: nat, delta: nat, nr: nat, chunk: nat, q: nat)
    requires chunk > 0 && delta > 0 && start <= q < nr
  {
    var hi := RoundHi(q, start, delta, nr);
    var lo := RoundLo(start, delta, hi);
    && q in pages
    && !NeedsRelink(known, pages, hi, nr)
    && !NeedsRelink(known, pages, lo, ChunkEnd(q, lo, hi, chunk))
  }

  ghost predicate EarlyTo<D>(known: Known, pages: Pages<D>, start: nat, delta: nat, nr: nat, chunk: nat, p: nat)
    requires chunk > 0 && delta > 0
  {
    start + delta <= p < nr + delta && MovedEarly(known, pages, start, delta, nr, chunk, p - delta)
  }

  /** Where these pages go. */
  ghost function EarlyTargets<D>(known: Known, pages: Pages<D>, start: nat, delta: nat, nr: nat, chunk: nat): set<nat>
    requires chunk > 0 && delta > 0
  {
    set p: nat | p < nr + delta && EarlyTo(known, pages, start, delta, nr, chunk, p)
  }

  predicate ShiftedTo<D>(pages: Pages<D>, idx: nat, delta: nat, nr: nat, p: nat) {
    idx + delta <= p < nr + delta && p - delta in pages
  }

  /** The targets of all pages from idx on. */
  ghost function ShiftedFrom<D>(pages: Pages<D>, idx: nat, delta: nat, nr: nat): set<nat> {
    set p: nat | p < nr + delta && ShiftedTo(pages, idx, delta, nr, p)
  }

  /** What the rounds and chunks before the refusal have written. */
  lemma EarlyAre<D>(known: Known, pages: Pages<D>, cur: Pages<D>, start: nat, delta: nat, idx: nat, nr: nat, chunk: nat)
    requires chunk > 0 && delta > 0 && start < idx && RoundBorder(start, delta, idx, nr) && SameBelow(pages, cur, idx)
    requires !NeedsRelink(known, pages, idx, nr)
    requires var lo := RoundLo(start, delta, idx); NeedsRelink(known, cur, lo, idx)
    ensures
      var lo := RoundLo(start, delta, idx);
      EarlyTargets(known, pages, start, delta, nr, chunk) ==
        ShiftedFrom(pages, idx, delta, nr) + LfsTargets(known, cur, lo, lo + delta, idx - lo, chunk, false)
  {
    hide NeedsRelink, ChunkEnd, RoundHi, SameBelow;
    var lo := RoundLo(start, delta, idx);
    forall p: nat
      ensures EarlyTo(known, pages, start, delta, nr, chunk, p) <==>
        ShiftedTo(pages, idx, delta, nr, p) || LfsMovesTo(known, cur, lo, lo + delta, idx - lo, chunk, false, p)
    {
      if start + delta <= p < nr + delta {
        EarlyPage(known, pages, cur, start, delta, idx, nr, chunk, p - delta);
        assert lo + (p - (lo + delta)) == p - delta;
      }
    }
  }

  lemma EarlyPage<D>(known: Known, pages: Pages<D>, cur: Pages<D>, start: nat, delta: nat, idx: nat, nr: nat,
                     chunk: nat, q: nat)
    requires chunk > 0 && delta > 0 && start < idx && RoundBorder(start, delta, idx, nr) && SameBelow(pages, cur, idx)
    requires !NeedsRelink(known, pages, idx, nr) && start <= q < nr
    requires var lo := RoundLo(start, delta, idx); NeedsRelink(known, cur, lo, idx)
    ensures
      var lo := RoundLo(start, delta, idx);
      MovedEarly(known, pages, start, delta, nr, chunk, q) <==>
        if q >= idx then q in pages
        else q >= lo && q in cur && !NeedsRelink(known, cur, lo, ChunkEnd(q, lo, idx, chunk))
  {
    hide NeedsRelink, ChunkEnd, SameBelow;
    var lo := RoundLo(start, delta, idx);
    var hi := RoundHi(q, start, delta, nr);
    var rlo := RoundLo(start, delta, hi);
    var e := ChunkEnd(q, rlo, hi, chunk);
    if q >= idx {
      NeedsWider(known, pages, hi, nr, idx, nr);
      NeedsWider(known, pages, rlo, e, idx, nr);
    } else if q >= lo {
      assert hi == idx;
      NeedsBelow(known, pages, cur, lo, e, idx);
      NeedsBelow(known, pages, cur, q, q, idx);
    } else {
      NeedsBelow(known, pages, cur, lo, idx, idx);
      NeedsWider(known, pages, lo, idx, hi, nr);
    }
  }

  lemma NeedsBelow<D>(known: Known, pages: Pages<D>, cur: Pages<D>, lo: nat, hi: nat, idx: nat)
    requires SameBelow(pages, cur, idx) && hi <= idx
    ensures NeedsRelink(known, pages, lo, hi) <==> NeedsRelink(known, cur, lo, hi)
    ensures lo < idx ==> (lo in pages <==> lo in cur)
  {
    if p: nat :| lo <= p < hi && Relinked(known(p), At(pages, p)) {
      assert Relinked(known(p), At(cur, p));
    }
    if p: nat :| lo <= p < hi && Relinked(known(p), At(cur, p)) {
      assert Relinked(known(p), At(pages, p));
    }
    assert lo < idx ==> At(cur, lo) == At(pages, lo);
  }

  /** f2fs_insert_range; from the last page down, at most delta pages at a time. */
  method InsertRange<D>(pages: Pages<D>, size: nat, offset: nat, len: nat, known: Known, lfs: bool, span: Span,
                        chunk: nat, block: nat)
    returns (st: Status, pages': Pages<D>, size': nat)
    requires len > 0 && chunk > 0 && block > 0
    requires forall p: nat :: span(p) > 0
    ensures st.Invalid? <==> offset >= size || offset % block != 0 || len % block != 0
    ensures st.Invalid? ==> pages' == pages && size' == size
    ensures st.Done? ==>
      size' == size + len && SpreadOut(pages, pages', offset / block, len / block, CeilDiv(size, block))
    // no block gets a second owner
    ensures NoShare(pages) ==> NoShare(pages')
    // a page the checkpoint does not know keeps its block
    ensures st.Done? ==>
      offset / block <= CeilDiv(size, block) && (offset + len) / block == offset / block + len / block
    ensures st.Done? ==>
      var start := offset / block;
      KeptBlocks(known, pages, pages', start, start + len / block, CeilDiv(size, block) - start)
    ensures st.Unsupported? <==> !st.Invalid? && lfs && NeedsRelink(known, pages, offset / block, CeilDiv(size, block))
    // a refused insert keeps the pages moved before, and the size they grew to
    ensures st.Unsupported? ==> len / block > 0
    ensures st.Unsupported? ==>
      var moved := EarlyTargets(known, pages, offset / block, len / block, CeilDiv(size, block), chunk);
      Reaches(size, size', block, moved) && PartSpread(pages, pages', len / block, CeilDiv(size, block), moved)
  {
    hide ClonedUpTo, Window, SpreadOut, PartSpread, StoppedAt, NeedsRelink, SameBelow, TruncatePages, Reaches,
      EarlyTargets, LfsTargets, ShiftedFrom, RoundBorder, KeptBlocks, NoShare;
    if offset >= size || offset % block != 0 || len % block != 0 {
      return Invalid, pages, size;
    }
    InsertPages(size, offset, len, block);
    var nr := CeilDiv(size, block);
    pages', size' := TruncatePages(pages, nr), size;
    var pgStart, pgEnd := offset / block, (offset + len) / block;
    var delta := pgEnd - pgStart;
    var idx: nat := nr;
    TruncateSpreads(pages, delta, nr);
    TruncateBelow(pages, nr);
    TruncateOwns(pages, nr);
    NoneYet(known, pages, nr);
    ghost var touched := {};
    ReachesNone(size, block);
    ShiftedNone(pages, delta, nr);
    RoundBorderStart(pgStart, delta, nr);
    KeptEmpty(known, pages, pages', nr, nr + delta);
    while idx > pgStart
      invariant pgStart <= idx <= nr
      invariant SpreadOut(pages, pages', idx, delta, nr) && SameBelow(pages, pages', idx)
      invariant KeptBlocks(known, pages, pages', idx, idx + delta, nr - idx)
      invariant NoShare(pages) ==> NoShare(pages')
      invariant lfs ==> !NeedsRelink(known, pages, idx, nr)
      invariant Reaches(size, size', block, touched)
      invariant lfs ==> touched == ShiftedFrom(pages, idx, delta, nr)
      invariant RoundBorder(pgStart, delta, idx, nr)
    {
      var n := Min(idx - pgStart, delta);
      RoundNeeds(known, pages, pages', pgStart, idx - n, idx, nr);
      RoundBorderNext(pgStart, delta, idx, nr);
      var ok, next, size2;
      ghost var more;
      ok, next, size2, more :=
        ExchangeDataBlock(pages', size', block, known, lfs, span, chunk, idx - n, idx - n + delta, n, false);
      ReachesJoin(size, size', size2, block, touched, more);
      if !ok {
        EarlyAre(known, pages, pages', pgStart, delta, idx, nr, chunk);
        ghost var m: nat :| StoppedAt(known, pages', next, idx - n, idx - n + delta, n, chunk, false, m);
        InsertStop(known, pages, pages', next, idx - n, n, delta, nr, chunk, m);
        return Unsupported, next, size2;
      }
      if lfs {
        RoundMoved(known, pages, pages', idx - n, n, delta, nr, chunk);
      }
      idx := idx - n;
      InsertStep(pages, pages', next, idx, n, delta, nr);
      RoundBelow(pages, pages', next, idx, n, delta);
      RoundKeeps(known, pages, pages', next, idx, n, delta, nr);
      pages', size', touched := next, size2, touched + more;
    }
    return Done, pages', size + len;
  }

  /** The rounds down to lo + n are moved, and of the next round the first m pages. */
  lemma InsertStop<D>(known: Known, pages: Pages<D>, cur: Pages<D>, next: Pages<D>, lo: nat, n: nat, delta: nat,
                      nr: nat, chunk: nat, m: nat)
    requires chunk > 0 && 0 < n <= delta && lo + n <= nr
    requires SpreadOut(pages, cur, lo + n, delta, nr) && SameBelow(pages, cur, lo + n)
    requires StoppedAt(known, cur, next, lo, lo + delta, n, chunk, false, m)
    ensures PartSpread(pages, next, delta, nr,
                       ShiftedFrom(pages, lo + n, delta, nr) + LfsTargets(known, cur, lo, lo + delta, n, chunk, false))
  {
    hide ClonedUpTo, Window, LfsTargets, Written, ShiftedFrom, SpreadOut, SameBelow;
    var moved := ShiftedFrom(pages, lo + n, delta, nr) + LfsTargets(known, cur, lo, lo + delta, n, chunk, false);
    forall p: nat ensures Content(next, p) == PartSpreadAt(pages, delta, nr, moved, p) {
      StopMoves(pages, cur, lo, n, delta, nr, m, p);
      StopMoves(pages, cur, lo, n, delta, nr, m, p + delta);
      InsertAt(cur, next, lo, n, m, delta, p);
      SpreadsTo(pages, cur, lo + n, delta, nr, p);
      if p >= delta {
        SpreadsTo(pages, cur, lo + n, delta, nr, p - delta);
      }
    }
  }

  lemma SpreadsTo<D>(pages: Pages<D>, cur: Pages<D>, idx: nat, delta: nat, nr: nat, p: nat)
    requires SpreadOut(pages, cur, idx, delta, nr)
    ensures Content(cur, p) == SpreadAt(pages, idx, delta, nr, p)
  {
  }

  /** Which pages have moved when the round at lo stops after m. */
  lemma StopMoves<D>(pages: Pages<D>, cur: Pages<D>, lo: nat, n: nat, delta: nat, nr: nat, m: nat, p: nat)
    requires m <= n && SameBelow(pages, cur, lo + n)
    ensures
      |Window(cur, lo, n)| == n &&
      (p in ShiftedFrom(pages, lo + n, delta, nr) + Written(Window(cur, lo, n), lo + delta, m, false) <==>
         (lo + n + delta <= p < nr + delta || lo + delta <= p < lo + delta + m) && p - delta in pages)
  {
    var w := Window(cur, lo, n);
    assert p in ShiftedFrom(pages, lo + n, delta, nr) <==> ShiftedTo(pages, lo + n, delta, nr, p);
    assert p in Written(w, lo + delta, m, false) <==> WritesTo(w, lo + delta, m, false, p);
    if lo + delta <= p < lo + delta + m {
      assert w[p - (lo + delta)] == At(cur, p - delta);
      assert At(cur, p - delta) == At(pages, p - delta);
    }
  }

  /**
   A refused insert leaves the pages of the file as they were exactly if it moved none: the lowest page
   moved leaves a hole.
   */
  lemma RefusedInsertKeeps<D>(known: Known, before: Pages<D>, after: Pages<D>, start: nat, delta: nat, nr: nat,
                              chunk: nat)
    requires chunk > 0 && delta > 0
    requires PartSpread(before, after, delta, nr, EarlyTargets(known, before, start, delta, nr, chunk))
    ensures (forall p: nat :: p < nr ==> Content(after, p) == Content(before, p)) <==>
      forall q: nat :: start <= q < nr ==> !MovedEarly(known, before, start, delta, nr, chunk, q)
  {
    hide NeedsRelink, ChunkEnd, RoundHi;
    var moved := EarlyTargets(known, before, start, delta, nr, chunk);
    if q: nat :| start <= q < nr && MovedEarly(known, before, start, delta, nr, chunk, q) {
      assert EarlyTo(known, before, start, delta, nr, chunk, q + delta);
      var p := LowestMoved(moved, delta, q + delta);
      assert Content(after, p - delta) == PartSpreadAt(before, delta, nr, moved, p - delta);
    } else {
      forall p: nat | p < nr ensures Content(after, p) == Content(before, p) {
        assert Content(after, p) == PartSpreadAt(before, delta, nr, moved, p);
        assert forall r: nat :: !EarlyTo(known, before, start, delta, nr, chunk, r);
      }
    }
  }

  lemma {:induction false} LowestMoved(moved: set<nat>, delta: nat, p: nat) returns (q: nat)
    requires delta > 0 && p in moved && forall r :: r in moved ==> r >= delta
    ensures q in moved && q - delta !in moved
    decreases p
  {
    q := p;
    if p - delta in moved {
      q := LowestMoved(moved, delta, p - delta);
    }
  }

  lemma ShiftedNone<D>(pages: Pages<D>, delta: nat, nr: nat)
    ensures ShiftedFrom(pages, nr, delta, nr) == {}
  {
  }

  /** A whole round without a page to re-link moves every mapped page of it. */
  lemma RoundMoved<D>(known: Known, pages: Pages<D>, cur: Pages<D>, lo: nat, n: nat, delta: nat, nr: nat, chunk: nat)
    requires chunk > 0 && n <= delta && lo + n <= nr && SameBelow(pages, cur, lo + n) &&
      !NeedsRelink(known, cur, lo, lo + n)
    ensures ShiftedFrom(pages, lo, delta, nr) ==
      ShiftedFrom(pages, lo + n, delta, nr) + LfsTargets(known, cur, lo, lo + delta, n, chunk, false)
  {
    hide NeedsRelink, SameBelow;
    forall p: nat
      ensures ShiftedTo(pages, lo, delta, nr, p) <==>
        ShiftedTo(pages, lo + n, delta, nr, p) || LfsMovesTo(known, cur, lo, lo + delta, n, chunk, false, p)
    {
      if lo + delta <= p < lo + delta + n {
        var q := lo + (p - (lo + delta));
        NeedsWider(known, cur, lo, ChunkEnd(q, lo, lo + n, chunk), lo, lo + n);
        NeedsBelow(known, pages, cur, q, q, lo + n);
      }
    }
  }

  /** The size stays exactly if no page written ends past it. */
  lemma ReachesSame(size: nat, size': nat, block: nat, touched: set<nat>)
    requires Reaches(size, size', block, touched)
    ensures size' == size <==> forall p :: p in touched ==> EndOf(p, block) <= size
  {
  }

  /**
   A refused insert can leave the file longer: four pages in LFS mode, of which the checkpoint knows the
   last and not the one before.  Inserting one page at 0 moves the last page up and is then refused.
   */
  lemma RefusedInsertGrows(known: Known, after: Pages<char>, size': nat, block: nat, chunk: nat)
    requires block > 0 && chunk > 0
    requires forall p: nat, b: nat :: known(p)(b) <==> b == 30
    requires
      var pages := map[2 := Page(Block(20), 'b'), 3 := Page(Block(30), 'c')];
      var moved := EarlyTargets(known, pages, 0, 1, 4, chunk);
      Reaches(4 * block, size', block, moved) && PartSpread(pages, after, 1, 4, moved)
    ensures NeedsRelink(known, map[2 := Page(Block(20), 'b'), 3 := Page(Block(30), 'c')], 0, 4)
    ensures size' == 5 * block && Content(after, 3) == None && Content(after, 4) == Some('c')
  {
    var pages := map[2 := Page(Block(20), 'b'), 3 := Page(Block(30), 'c')];
    var early := EarlyTargets(known, pages, 0, 1, 4, chunk);
    assert Relinked(known(2), At(pages, 2));
    forall p: nat ensures p in early <==> p == 4 {
      if 1 <= p < 5 {
        EarlyInExample(known, pages, chunk, p - 1);
      }
    }
    assert EndOf(4, block) == 5 * block;
    assert Content(after, 3) == PartSpreadAt(pages, 1, 4, early, 3);
    assert Content(after, 4) == PartSpreadAt(pages, 1, 4, early, 4);
  }

  lemma EarlyInExample(known: Known, pages: Pages<char>, chunk: nat, q: nat)
    requires chunk > 0 && q < 4 && pages == map[2 := Page(Block(20), 'b'), 3 := Page(Block(30), 'c')]
    requires forall p: nat, b: nat :: known(p)(b) <==> b == 30
    ensures MovedEarly(known, pages, 0, 1, 4, chunk, q) <==> q == 3
  {
    var hi := RoundHi(q, 0, 1, 4);
    assert hi == q + 1;
    assert Relinked(known(2), At(pages, 2)) && !Relinked(known(3), At(pages, 3));
    assert ChunkEnd(q, q, q + 1, chunk) == q + 1;
    if q == 2 {
      assert NeedsRelink(known, pages, 2, 3);
    }
  }

  /** Inserting a range and collapsing it again gives the file back. */
  lemma InsertThenCollapse<D>(pages: Pages<D>, mid: Pages<D>, after: Pages<D>, start: nat, delta: nat, nr: nat)
    requires start <= nr && SpreadOut(pages, mid, start, delta, nr) && CutOut(mid, after, start, delta, nr + delta)
    ensures forall p: nat :: Content(after, p) == if p < nr then Content(pages, p) else None
  {
    forall p: nat ensures Content(after, p) == if p < nr then Content(pages, p) else None {
      assert Content(after, p) == CutAt(mid, start, delta, nr + delta, p);
      assert Content(mid, p) == SpreadAt(pages, start, delta, nr, p);
      assert Content(mid, p + delta) == SpreadAt(pages, start, delta, nr, p + delta);
    }
  }

  /** Collapsing a range and inserting it again leaves the file with a hole in that range. */
  lemma CollapseThenInsert<D>(pages: Pages<D>, mid: Pages<D>, after: Pages<D>, start: nat, delta: nat, nr: nat)
    requires start + delta <= nr && CutOut(pages, mid, start, delta, nr) &&
      SpreadOut(mid, after, start, delta, nr - delta)
    ensures forall p: nat ::
      Content(after, p) == if p < start || start + delta <= p < nr then Content(pages, p) else None
  {
    forall p: nat
      ensures Content(after, p) == if p < start || start + delta <= p < nr then Content(pages, p) else None
    {
      assert Content(after, p) == SpreadAt(mid, start, delta, nr - delta, p);
      assert Content(mid, p) == CutAt(pages, start, delta, nr, p);
      if p >= start + delta {
        assert Content(mid, p - delta) == CutAt(pages, start, delta, nr, p - delta);
      }
    }
  }
}
