/**
 Circular search for a victim segment, for sections of one segment.  The search starts at the place
 the previous one left off, wraps around once, and stops after max_search dirty segments.
 */
module VictimSearch {
  import opened Prelude

  /** The dirty segments in lo .. hi, in order. */
  function DirtyIn(dirty: seq<bool>, lo: nat, hi: nat): seq<nat>
    requires lo <= hi <= |dirty|
    decreases hi - lo
  {
    if lo == hi then [] else if dirty[lo] then [lo] + DirtyIn(dirty, lo + 1, hi) else DirtyIn(dirty, lo + 1, hi)
  }

  /** All dirty segments, in circular order from `start`. */
  function Candidates(dirty: seq<bool>, start: nat): seq<nat>
    requires start <= |dirty|
  {
    DirtyIn(dirty, start, |dirty|) + DirtyIn(dirty, 0, start)
  }

  lemma {:induction false} DirtyInMember(dirty: seq<bool>, lo: nat, hi: nat, seg: nat)
    requires lo <= hi <= |dirty|
    ensures seg in DirtyIn(dirty, lo, hi) <==> lo <= seg < hi && dirty[seg]
    decreases hi - lo
  {
    if lo < hi {
      DirtyInMember(dirty, lo + 1, hi, seg);
    }
  }

  predicate Increasing(d: seq<nat>) {
    forall i, j :: 0 <= i < j < |d| ==> d[i] < d[j]
  }

  lemma {:induction false} DirtyInSorted(dirty: seq<bool>, lo: nat, hi: nat)
    requires lo <= hi <= |dirty|
    ensures Increasing(DirtyIn(dirty, lo, hi))
    decreases hi - lo
  {
    if lo < hi {
      var rest := DirtyIn(dirty, lo + 1, hi);
      DirtyInSorted(dirty, lo + 1, hi);
      forall seg | seg in rest ensures seg > lo {
        DirtyInMember(dirty, lo + 1, hi, seg);
      }
      AddFront(lo, rest);
    }
  }

  lemma AddFront(x: nat, d: seq<nat>)
    requires Increasing(d) && forall y :: y in d ==> y > x
    ensures Increasing([x] + d)
  {
    var e := [x] + d;
    forall i, j | 0 <= i < j < |e| ensures e[i] < e[j] {
      assert e[j] == d[j - 1] && d[j - 1] in d;
    }
  }

  lemma {:induction false} DirtyInSplit(dirty: seq<bool>, lo: nat, mid: nat, hi: nat)
    requires lo <= mid <= hi <= |dirty|
    ensures DirtyIn(dirty, lo, hi) == DirtyIn(dirty, lo, mid) + DirtyIn(dirty, mid, hi)
    decreases mid - lo
  {
    if lo < mid {
      DirtyInSplit(dirty, lo + 1, mid, hi);
    }
  }

  /** Each dirty segment is a candidate, and a candidate once only. */
  lemma CandidatesAreDirtyOnes(dirty: seq<bool>, start: nat, seg: nat)
    requires start <= |dirty|
    ensures seg in Candidates(dirty, start) <==> seg < |dirty| && dirty[seg]
  {
    DirtyInMember(dirty, start, |dirty|, seg);
    DirtyInMember(dirty, 0, start, seg);
  }

  lemma CandidatesDistinct(dirty: seq<bool>, start: nat)
    requires start <= |dirty|
    ensures NoDup(Candidates(dirty, start))
  {
    var high, low := DirtyIn(dirty, start, |dirty|), DirtyIn(dirty, 0, start);
    DirtyInSorted(dirty, start, |dirty|);
    DirtyInSorted(dirty, 0, start);
    forall seg | seg in high ensures seg !in low {
      DirtyInMember(dirty, start, |dirty|, seg);
      DirtyInMember(dirty, 0, start, seg);
    }
    Joined(high, low);
  }

  lemma Joined(a: seq<nat>, b: seq<nat>)
    requires Increasing(a) && Increasing(b) && forall x :: x in a ==> x !in b
    ensures NoDup(a + b)
  {
    var c := a + b;
    forall i, j | 0 <= i < j < |c| ensures c[i] != c[j] {
      if i < |a| <= j {
        assert c[i] in a && c[j] in b;
      }
    }
  }

  /** The count does not depend on where the search starts: it is the number of dirty segments. */
  lemma CandidatesCount(dirty: seq<bool>, start: nat)
    requires start <= |dirty|
    ensures |Candidates(dirty, start)| == |DirtyIn(dirty, 0, |dirty|)|
  {
    DirtyInSplit(dirty, 0, start, |dirty|);
  }

  /** find_next_bit. */
  method FindNextBit(dirty: seq<bool>, size: nat, offset: nat) returns (r: nat)
    requires size <= |dirty|
    ensures offset > size ==> r == size
    ensures offset <= size ==> offset <= r <= size && DirtyIn(dirty, offset, size) == DirtyIn(dirty, r, size)
    ensures r < size ==> dirty[r]
    ensures r == size >= offset ==> DirtyIn(dirty, offset, size) == []
  {
    if offset >= size {
      return size;
    }
    r := offset;
    while r < size && !dirty[r]
      invariant offset <= r <= size && DirtyIn(dirty, offset, size) == DirtyIn(dirty, r, size)
    {
      r := r + 1;
    }
  }

  /** `best` is the cheapest eligible segment of `seen` below the cost limit, the first of equals. */
  ghost predicate Cheapest(seen: seq<nat>, eligible: nat -> bool, cost: nat -> nat, limit: nat, best: Option<nat>,
                           minCost: nat)
  {
    match best
    case None => minCost == limit && (forall i :: 0 <= i < |seen| && eligible(seen[i]) ==> cost(seen[i]) >= limit)
    case Some(b) =>
      && minCost == cost(b) < limit && eligible(b)
      && (exists k :: 0 <= k < |seen| && seen[k] == b
            && (forall i :: 0 <= i < k && eligible(seen[i]) ==> cost(seen[i]) > minCost))
      && (forall i :: 0 <= i < |seen| && eligible(seen[i]) ==> cost(seen[i]) >= minCost)
  }

  lemma CheapestNext(seen: seq<nat>, eligible: nat -> bool, cost: nat -> nat, limit: nat, best: Option<nat>,
                     minCost: nat, seg: nat)
    requires Cheapest(seen, eligible, cost, limit, best, minCost)
    ensures
      if eligible(seg) && minCost > cost(seg) then Cheapest(seen + [seg], eligible, cost, limit, Some(seg), cost(seg))
      else Cheapest(seen + [seg], eligible, cost, limit, best, minCost)
  {
    var more := seen + [seg];
    if eligible(seg) && minCost > cost(seg) {
      assert more[|seen|] == seg;
    } else if best.Some? {
      var k :| 0 <= k < |seen| && seen[k] == best.value
        && (forall i :: 0 <= i < k && eligible(seen[i]) ==> cost(seen[i]) > minCost);
      assert more[k] == best.value;
    }
  }

  /** How far the search is: `seen` is done, the rest of the circle is still ahead. */
  ghost predicate Progress(dirty: seq<bool>, start: nat, wrapped: bool, offset: nat, seen: seq<nat>) {
    && start < |dirty|
    && (if wrapped then offset <= start else start <= offset <= |dirty|)
    && Candidates(dirty, start) ==
       seen + if wrapped then DirtyIn(dirty, offset, start)
              else DirtyIn(dirty, offset, |dirty|) + DirtyIn(dirty, 0, start)
  }

  lemma ProgressStart(dirty: seq<bool>, start: nat)
    requires start < |dirty|
    ensures Progress(dirty, start, false, start, [])
  {
    assert [] + DirtyIn(dirty, start, |dirty|) == DirtyIn(dirty, start, |dirty|);
  }

  /** The next dirty segment is the next candidate. */
  lemma ProgressTake(dirty: seq<bool>, start: nat, wrapped: bool, offset: nat, seen: seq<nat>, seg: nat)
    requires Progress(dirty, start, wrapped, offset, seen)
    requires
      var hi := if wrapped then start else |dirty|;
      offset <= seg < hi && dirty[seg] && DirtyIn(dirty, offset, hi) == DirtyIn(dirty, seg, hi)
    ensures Progress(dirty, start, wrapped, seg + 1, seen + [seg])
    ensures |seen| < |Candidates(dirty, start)| && seen + [seg] == Candidates(dirty, start)[..|seen| + 1]
  {
    var hi := if wrapped then start else |dirty|;
    assert DirtyIn(dirty, seg, hi) == [seg] + DirtyIn(dirty, seg + 1, hi);
    if wrapped {
      assert seen + ([seg] + DirtyIn(dirty, seg + 1, hi)) == seen + [seg] + DirtyIn(dirty, seg + 1, hi);
    } else {
      assert seen + ([seg] + DirtyIn(dirty, seg + 1, hi)) + DirtyIn(dirty, 0, start)
        == seen + [seg] + DirtyIn(dirty, seg + 1, hi) + DirtyIn(dirty, 0, start);
    }
  }

  /** Nothing dirty up to the end: go on at 0, or be done. */
  lemma ProgressEnd(dirty: seq<bool>, start: nat, wrapped: bool, offset: nat, seen: seq<nat>)
    requires Progress(dirty, start, wrapped, offset, seen)
    requires DirtyIn(dirty, offset, if wrapped then start else |dirty|) == []
    ensures !wrapped ==> Progress(dirty, start, true, 0, seen)
    ensures wrapped || start == 0 ==> seen == Candidates(dirty, start)
  {
  }

  lemma ProgressBounds(dirty: seq<bool>, start: nat, wrapped: bool, offset: nat, seen: seq<nat>)
    requires Progress(dirty, start, wrapped, offset, seen)
    ensures offset <= if wrapped then start else |dirty|
    ensures !wrapped ==> offset >= start
    ensures |seen| <= |Candidates(dirty, start)|
  {
  }

  /** SIT_I(sbi)->last_victim for one policy, and the dirty map it walks. */
  class Selector {
    var dirty: seq<bool>
    var lastVictim: nat

    constructor (segments: nat)
      requires segments > 0
      ensures |dirty| == segments && lastVictim == 0
    {
      dirty, lastVictim := seq(segments, _ => false), 0;
    }

    /**
     The loop of get_victim_by_default; `limit` is get_max_cost, `eligible` stands for the checks that skip a
     segment.
     */
    method Search(eligible: nat -> bool, cost: nat -> nat, limit: nat, maxSearch: nat)
      returns (victim: Option<nat>, ghost seen: seq<nat>)
      requires lastVictim < |dirty|
      modifies `lastVictim
      ensures lastVictim < |dirty|
      ensures
        var all := Candidates(dirty, old(lastVictim));
        seen == all[..if maxSearch < |all| then maxSearch else |all|]
      ensures exists m: nat :: Cheapest(seen, eligible, cost, limit, victim, m)
      ensures |seen| == maxSearch > 0 && seen[|seen| - 1] >= old(lastVictim) ==>
        lastVictim == (seen[|seen| - 1] + 1) % |dirty|
      ensures |seen| == maxSearch > 0 && seen[|seen| - 1] < old(lastVictim) ==>
        lastVictim == (old(lastVictim) + 1) % |dirty|
      ensures |seen| < maxSearch ==> lastVictim == 0
      ensures maxSearch == 0 ==> lastVictim == old(lastVictim)
    {
      hide Cheapest, DirtyIn, Candidates, Progress;
      victim, seen := None, [];
      var minCost := limit;
      CheapestStart(eligible, cost, limit);
      if maxSearch == 0 {
        return;
      }
      var start: nat, lastSegment: nat, offset: nat, searched: nat := lastVictim, |dirty|, lastVictim, 0;
      ghost var wrapped := false;
      ProgressStart(dirty, start);
      while true
        invariant searched == |seen| < maxSearch
        invariant lastVictim == (if wrapped then 0 else start) && lastSegment == if wrapped then start else |dirty|
        invariant Progress(dirty, start, wrapped, offset, seen)
        invariant Cheapest(seen, eligible, cost, limit, victim, minCost)
        decreases !wrapped, lastSegment - offset
      {
        ProgressBounds(dirty, start, wrapped, offset, seen);
        var seg := FindNextBit(dirty, lastSegment, offset);
        if seg >= lastSegment {
          ProgressEnd(dirty, start, wrapped, offset, seen);
          if lastVictim != 0 {
            lastSegment := lastVictim;
            lastVictim := 0;
            offset := 0;
            wrapped := true;
            continue;
          }
          break;
        }
        ProgressTake(dirty, start, wrapped, offset, seen, seg);
        CheapestNext(seen, eligible, cost, limit, victim, minCost, seg);
        offset := seg + 1;
        searched := searched + 1;
        seen := seen + [seg];
        if eligible(seg) {
          var c := cost(seg);
          if minCost > c {
            victim, minCost := Some(seg), c;
          }
        }
        if searched >= maxSearch {
          lastVictim := if lastVictim == 0 && seg <= start then start + 1 else seg + 1;
          lastVictim := lastVictim % |dirty|;
          break;
        }
      }
    }
  }

  lemma CheapestStart(eligible: nat -> bool, cost: nat -> nat, limit: nat)
    ensures Cheapest([], eligible, cost, limit, None, limit)
  {
  }

  /** With max_search at the number of dirty segments the victim is the cheapest of them all. */
  lemma CheapestOfAll(dirty: seq<bool>, start: nat, maxSearch: nat, seen: seq<nat>, eligible: nat -> bool,
                      cost: nat -> nat, limit: nat, victim: Option<nat>, m: nat, seg: nat)
    requires start <= |dirty| && maxSearch >= |DirtyIn(dirty, 0, |dirty|)|
    requires var all := Candidates(dirty, start); seen == all[..if maxSearch < |all| then maxSearch else |all|]
    requires Cheapest(seen, eligible, cost, limit, victim, m)
    requires seg < |dirty| && dirty[seg] && eligible(seg) && cost(seg) < limit
    ensures victim.Some? && victim.value < |dirty| && dirty[victim.value] && eligible(victim.value) &&
      cost(victim.value) <= cost(seg)
  {
    var all := Candidates(dirty, start);
    CandidatesCount(dirty, start);
    assert seen == all;
    CandidatesAreDirtyOnes(dirty, start, seg);
    var k :| 0 <= k < |seen| && seen[k] == seg;
    if victim.Some? {
      CandidatesAreDirtyOnes(dirty, start, victim.value);
    }
  }
}
