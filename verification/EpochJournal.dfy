/**
 Epoch journal: operations link log entries into per-inode lists, and a commit thread switches the
 running epoch and then consumes the lists that were registered for the epoch before.

 Inserts are atomic and may fall between any two steps of the commit thread.  For every inode and
 epoch the state also records the logs that were linked into the list registered for that epoch, and
 the logs the commit of that epoch has consumed.
 */
module EpochJournal {
  import opened Prelude

  /** MAX_GLOBAL_EP_NUM */
  const MAX: nat := 8

  /** NONE_EPOCH */
  const NONE: nat := MAX

  type Ino = nat
  type Log = nat

  /** A list being committed carries the epoch's status, which is neither LOG_LIST_IDLE nor LOG_LIST_INUSE. */
  datatype ListStatus = Idle | InUse | Committing

  /** The journal part of f2fs_inode_info; owner is the epoch a list was last registered for. */
  datatype Inode = Inode(active: nat, g2l: seq<nat>, status: seq<ListStatus>, lists: seq<seq<Log>>, owner: seq<nat>)

  /** Where the commit thread is: between rounds, between inodes of epoch e, or emptying one inode's list. */
  datatype Phase = Sleeping | Between(e: nat) | Emptying(e: nat, ino: Ino)

  datatype State = State(
    running: nat,
    regs: seq<seq<Ino>>,
    inodes: map<Ino, Inode>,
    phase: Phase,
    linked: map<(Ino, nat), seq<Log>>,
    consumed: map<(Ino, nat), seq<Log>>)
  {
    function Of(ino: Ino): Inode {
      if ino in inodes then inodes[ino] else NewInode()
    }

    function Linked(ino: Ino, e: nat): seq<Log> {
      if (ino, e) in linked then linked[(ino, e)] else []
    }

    function Consumed(ino: Ino, e: nat): seq<Log> {
      if (ino, e) in consumed then consumed[(ino, e)] else []
    }

    predicate Registered(ino: Ino, e: nat) {
      e < |regs| && ino in regs[e]
    }
  }

  function NewInode(): Inode {
    Inode(0, seq(MAX, _ => NONE), seq(MAX, _ => Idle), seq(MAX, _ => []), seq(MAX, _ => 0))
  }

  function Init(): State {
    State(0, seq(MAX, _ => []), map[], Sleeping, map[], map[])
  }

  // ----- insert

  /** get_idle_local_epoch: the first idle list, or MAX. */
  function IdleFrom(status: seq<ListStatus>, i: nat): (r: nat)
    requires i <= |status|
    ensures i <= r <= |status|
    ensures r < |status| ==> status[r] == Idle
    ensures forall k :: i <= k < r ==> status[k] != Idle
    decreases |status| - i
  {
    if i == |status| || status[i] == Idle then i else IdleFrom(status, i + 1)
  }

  predicate Shaped(n: Inode) {
    && |n.g2l| == |n.status| == |n.lists| == |n.owner| == MAX
    && (forall l :: 0 <= l < MAX ==> n.owner[l] < MAX)
  }

  predicate NeedsCheckin(n: Inode, running: nat)
    requires Shaped(n) && running < MAX
  {
    n.g2l[running] >= NONE && IdleFrom(n.status, 0) < MAX
  }

  /** The inode after ino_checkin_global_epoch took an idle list for the running epoch. */
  function CheckedIn(n: Inode, running: nat): Inode
    requires Shaped(n) && running < MAX && NeedsCheckin(n, running)
  {
    var l := IdleFrom(n.status, 0);
    Inode(l, n.g2l[running := l], n.status[l := InUse], n.lists, n.owner[l := running])
  }

  function Checkin(s: State, ino: Ino): State
    requires Shaped(s.Of(ino)) && s.running < MAX && |s.regs| == MAX
  {
    if NeedsCheckin(s.Of(ino), s.running) then
      s.(inodes := s.inodes[ino := CheckedIn(s.Of(ino), s.running)],
         regs := s.regs[s.running := s.regs[s.running] + [ino]])
    else s
  }

  predicate Accepts(n: Inode)
    requires Shaped(n)
  {
    n.active < MAX && n.status[n.active] == InUse
  }

  /** Link a log at the end of the inode's active list. */
  function LinkLog(s: State, ino: Ino, log: Log): State
    requires Shaped(s.Of(ino))
  {
    var n := s.Of(ino);
    if Accepts(n) then
      var e := n.owner[n.active];
      s.(inodes := s.inodes[ino := n.(lists := n.lists[n.active := n.lists[n.active] + [log]])],
         linked := s.linked[(ino, e) := s.Linked(ino, e) + [log]])
    else s
  }

  // ----- the machine

  datatype Step = Insert(ino: Ino, log: Log) | Trigger | PickInode | TakeLog | DropInode | FinishEpoch

  predicate Typed(s: State) {
    && s.running < MAX && |s.regs| == MAX
    && (forall ino :: ino in s.inodes ==> Shaped(s.inodes[ino]))
    && (s.phase != Sleeping ==> s.phase.e < MAX && s.running == (s.phase.e + 1) % MAX)
  }

  predicate Enabled(s: State, step: Step)
    requires Typed(s)
  {
    match step
    case Insert(_, _) => true
    case Trigger => s.phase == Sleeping
    case PickInode => s.phase.Between? && s.regs[s.phase.e] != [] && s.Of(s.regs[s.phase.e][0]).g2l[s.phase.e] < MAX
    case TakeLog => s.phase.Emptying? && CurrentList(s) < MAX && s.Of(s.phase.ino).lists[CurrentList(s)] != []
    case DropInode =>
      && s.phase.Emptying? && CurrentList(s) < MAX && s.Of(s.phase.ino).lists[CurrentList(s)] == []
      && s.regs[s.phase.e] != [] && s.regs[s.phase.e][0] == s.phase.ino
    case FinishEpoch => s.phase.Between? && s.regs[s.phase.e] == []
  }

  /** The list that is being emptied. */
  function CurrentList(s: State): nat
    requires Typed(s) && s.phase.Emptying?
  {
    s.Of(s.phase.ino).g2l[s.phase.e]
  }

  function Apply(s: State, step: Step): State
    requires Typed(s) && Enabled(s, step)
  {
    match step
    case Insert(ino, log) => LinkLog(Checkin(s, ino), ino, log)
    case Trigger => s.(phase := Between(s.running), running := (s.running + 1) % MAX)
    case PickInode =>
      var ino := s.regs[s.phase.e][0];
      var n := s.Of(ino);
      s.(inodes := s.inodes[ino := n.(active := NONE, status := n.status[n.g2l[s.phase.e] := Committing])],
         phase := Emptying(s.phase.e, ino))
    case TakeLog =>
      var (ino, e, l) := (s.phase.ino, s.phase.e, CurrentList(s));
      var n := s.Of(ino);
      s.(inodes := s.inodes[ino := n.(lists := n.lists[l := n.lists[l][1..]])],
         consumed := s.consumed[(ino, e) := s.Consumed(ino, e) + [n.lists[l][0]]])
    case DropInode =>
      var (ino, e, l) := (s.phase.ino, s.phase.e, CurrentList(s));
      var n := s.Of(ino);
      s.(inodes := s.inodes[ino := n.(status := n.status[l := Idle])],
         regs := s.regs[e := s.regs[e][1..]],
         phase := Between(e))
    case FinishEpoch => s.(phase := Sleeping)
  }

  // ----- the invariant

  /** One inode and one epoch: nothing linked is lost, and it is consumed in order. */
  ghost predicate PairOk(s: State, ino: Ino, e: nat)
    requires Typed(s) && e < MAX
  {
    var n := s.Of(ino);
    if s.Registered(ino, e) then
      && n.g2l[e] < MAX && n.owner[n.g2l[e]] == e
      && n.status[n.g2l[e]] == (if s.phase == Emptying(e, ino) then Committing else InUse)
      && s.Consumed(ino, e) + n.lists[n.g2l[e]] == s.Linked(ino, e)
      && (s.phase != Emptying(e, ino) ==> s.Consumed(ino, e) == [])
    else
      && s.Consumed(ino, e) == s.Linked(ino, e)
      && (n.g2l[e] >= MAX ==> s.Linked(ino, e) == [])
  }

  /** One list: idle and empty, or registered for its owner. */
  ghost predicate ListOk(s: State, ino: Ino, l: nat)
    requires Typed(s) && l < MAX
  {
    var n := s.Of(ino);
    if n.status[l] == Idle then n.lists[l] == []
    else s.Registered(ino, n.owner[l]) && n.g2l[n.owner[l]] == l
  }

  ghost predicate Inv(s: State) {
    && Typed(s)
    && (forall ino: Ino, e: nat :: e < MAX ==> PairOk(s, ino, e))
    && (forall ino: Ino, l: nat :: l < MAX ==> ListOk(s, ino, l))
    && (forall e: nat :: e < MAX ==> NoDup(s.regs[e]))
    && (s.phase.Emptying? ==> s.regs[s.phase.e] != [] && s.regs[s.phase.e][0] == s.phase.ino)
  }

  lemma InitInv()
    ensures Inv(Init())
  {
  }

  // Insert, first half: check-in.

  lemma CheckinShape(s: State, ino: Ino)
    requires Typed(s) && NeedsCheckin(s.Of(ino), s.running)
    ensures
      var s' := Checkin(s, ino);
      && Typed(s') && s'.phase == s.phase && s'.Of(ino) == CheckedIn(s.Of(ino), s.running)
      && (forall i: Ino :: i != ino ==> s'.Of(i) == s.Of(i))
      && s'.linked == s.linked && s'.consumed == s.consumed
      && s'.regs == s.regs[s.running := s.regs[s.running] + [ino]]
  {
  }

  lemma CheckinPair(s: State, ino: Ino, i: Ino, e: nat)
    requires Typed(s) && NeedsCheckin(s.Of(ino), s.running) && e < MAX
    requires PairOk(s, i, e) && ListOk(s, ino, IdleFrom(s.Of(ino).status, 0))
    ensures PairOk(Checkin(s, ino), i, e)
  {
    CheckinShape(s, ino);
  }

  lemma CheckinList(s: State, ino: Ino, i: Ino, l: nat)
    requires Typed(s) && NeedsCheckin(s.Of(ino), s.running) && l < MAX
    requires ListOk(s, i, l) && PairOk(s, ino, s.running)
    ensures ListOk(Checkin(s, ino), i, l)
  {
    CheckinShape(s, ino);
  }

  lemma CheckinInv(s: State, ino: Ino)
    requires Inv(s)
    ensures Inv(Checkin(s, ino))
  {
    hide PairOk, ListOk;
    var s' := Checkin(s, ino);
    if s' != s {
      CheckinShape(s, ino);
      forall i: Ino, e: nat | e < MAX ensures PairOk(s', i, e) {
        assert PairOk(s, i, e);
        CheckinPair(s, ino, i, e);
      }
      forall i: Ino, k: nat | k < MAX ensures ListOk(s', i, k) {
        assert ListOk(s, i, k);
        CheckinList(s, ino, i, k);
      }
      FreshRegistration(s, ino);
    }
  }

  lemma FreshRegistration(s: State, ino: Ino)
    requires Inv(s) && NeedsCheckin(s.Of(ino), s.running)
    ensures NoDup(s.regs[s.running] + [ino])
  {
    assert PairOk(s, ino, s.running);
  }

  // Insert, second half: link.

  lemma LinkShape(s: State, ino: Ino, log: Log)
    requires Typed(s) && Accepts(s.Of(ino))
    ensures
      var s', n := LinkLog(s, ino, log), s.Of(ino);
      && Typed(s') && s'.phase == s.phase && s'.regs == s.regs && s'.consumed == s.consumed
      && s'.Of(ino) == n.(lists := n.lists[n.active := n.lists[n.active] + [log]])
      && (forall i: Ino :: i != ino ==> s'.Of(i) == s.Of(i))
      && (forall i: Ino, e: nat :: s'.Linked(i, e) ==
            if i == ino && e == n.owner[n.active] then s.Linked(i, e) + [log] else s.Linked(i, e))
  {
  }

  lemma LinkPair(s: State, ino: Ino, log: Log, i: Ino, e: nat)
    requires Typed(s) && Accepts(s.Of(ino)) && e < MAX
    requires PairOk(s, i, e) && ListOk(s, ino, s.Of(ino).active)
    ensures PairOk(LinkLog(s, ino, log), i, e)
  {
    LinkShape(s, ino, log);
    var s', n := LinkLog(s, ino, log), s.Of(ino);
    assert s'.Registered(i, e) == s.Registered(i, e);
    assert s'.Consumed(i, e) == s.Consumed(i, e);
    if i == ino && e == n.owner[n.active] {
      assert s.Consumed(i, e) + (n.lists[n.active] + [log]) == s.Consumed(i, e) + n.lists[n.active] + [log];
    }
  }

  lemma LinkInv(s: State, ino: Ino, log: Log)
    requires Inv(s)
    ensures Inv(LinkLog(s, ino, log))
  {
    hide PairOk;
    var s' := LinkLog(s, ino, log);
    if s' != s {
      LinkShape(s, ino, log);
      assert ListOk(s, ino, s.Of(ino).active);
      forall i: Ino, e: nat | e < MAX ensures PairOk(s', i, e) {
        assert PairOk(s, i, e);
        LinkPair(s, ino, log, i, e);
      }
      forall i: Ino, k: nat | k < MAX ensures ListOk(s', i, k) {
        assert ListOk(s, i, k);
      }
    }
  }

  // The commit thread.

  lemma PickPair(s: State, i: Ino, e: nat)
    requires Typed(s) && Enabled(s, PickInode) && e < MAX
    requires PairOk(s, i, e) && PairOk(s, s.regs[s.phase.e][0], s.phase.e)
    ensures PairOk(Apply(s, PickInode), i, e)
  {
    var s', ino := Apply(s, PickInode), s.regs[s.phase.e][0];
    assert s'.Registered(i, e) == s.Registered(i, e);
    assert s'.Of(ino).lists == s.Of(ino).lists;
  }

  lemma PickInv(s: State)
    requires Inv(s) && Enabled(s, PickInode)
    ensures Inv(Apply(s, PickInode))
  {
    hide PairOk;
    var s', ino := Apply(s, PickInode), s.regs[s.phase.e][0];
    assert PairOk(s, ino, s.phase.e);
    PickList(s);
    forall i: Ino, e: nat | e < MAX ensures PairOk(s', i, e) {
      assert PairOk(s, i, e);
      PickPair(s, i, e);
    }
    forall i: Ino, k: nat | k < MAX ensures ListOk(s', i, k) {
      assert ListOk(s, i, k);
    }
  }

  lemma PickList(s: State)
    requires Typed(s) && Enabled(s, PickInode) && PairOk(s, s.regs[s.phase.e][0], s.phase.e)
    ensures var n := s.Of(s.regs[s.phase.e][0]); n.status[n.g2l[s.phase.e]] != Idle
  {
  }

  lemma TakePair(s: State, i: Ino, e: nat)
    requires Typed(s) && Enabled(s, TakeLog) && e < MAX && s.Registered(s.phase.ino, s.phase.e)
    requires PairOk(s, i, e) && PairOk(s, s.phase.ino, s.phase.e)
    ensures PairOk(Apply(s, TakeLog), i, e)
  {
    var s', ino, c := Apply(s, TakeLog), s.phase.ino, s.phase.e;
    var l := CurrentList(s);
    var q := s.Of(ino).lists[l];
    assert s'.Registered(i, e) == s.Registered(i, e);
    if i == ino && e == c {
      assert [q[0]] + q[1..] == q;
      assert s.Consumed(i, e) + [q[0]] + q[1..] == s.Consumed(i, e) + q;
    } else {
      assert s'.Consumed(i, e) == s.Consumed(i, e);
    }
  }

  lemma TakeInv(s: State)
    requires Inv(s) && Enabled(s, TakeLog)
    ensures Inv(Apply(s, TakeLog))
  {
    hide PairOk;
    var s' := Apply(s, TakeLog);
    assert PairOk(s, s.phase.ino, s.phase.e);
    forall i: Ino, e: nat | e < MAX ensures PairOk(s', i, e) {
      assert PairOk(s, i, e);
      TakePair(s, i, e);
    }
    forall i: Ino, k: nat | k < MAX ensures ListOk(s', i, k) {
      assert ListOk(s, i, k);
    }
  }

  lemma DropRegs(s: State, i: Ino, e: nat)
    requires Inv(s) && Enabled(s, DropInode) && e < MAX
    ensures Apply(s, DropInode).Registered(i, e) <==> s.Registered(i, e) && !(i == s.phase.ino && e == s.phase.e)
    ensures NoDup(Apply(s, DropInode).regs[e])
  {
    var r := s.regs[s.phase.e];
    assert r == [r[0]] + r[1..];
    assert NoDup(r);
  }

  lemma DropPair(s: State, i: Ino, e: nat)
    requires Inv(s) && Enabled(s, DropInode) && e < MAX
    ensures PairOk(Apply(s, DropInode), i, e)
  {
    var s', ino, c := Apply(s, DropInode), s.phase.ino, s.phase.e;
    assert PairOk(s, i, e) && PairOk(s, ino, c);
    DropRegs(s, i, e);
    assert s.Registered(ino, c);
    assert s.Consumed(ino, c) + [] == s.Consumed(ino, c);
  }

  lemma DropList(s: State, i: Ino, l: nat)
    requires Inv(s) && Enabled(s, DropInode) && l < MAX
    ensures ListOk(Apply(s, DropInode), i, l)
  {
    assert ListOk(s, i, l) && PairOk(s, s.phase.ino, s.phase.e);
    assert s.Registered(s.phase.ino, s.phase.e);
    DropRegs(s, i, s.Of(i).owner[l]);
  }

  lemma DropInv(s: State)
    requires Inv(s) && Enabled(s, DropInode)
    ensures Inv(Apply(s, DropInode))
  {
    hide PairOk, ListOk, NoDup;
    var s' := Apply(s, DropInode);
    forall i: Ino, e: nat | e < MAX ensures PairOk(s', i, e) {
      DropPair(s, i, e);
    }
    forall e: nat | e < MAX ensures NoDup(s'.regs[e]) {
      DropRegs(s, 0, e);
    }
    forall i: Ino, k: nat | k < MAX ensures ListOk(s', i, k) {
      DropList(s, i, k);
    }
  }

  /** Trigger and FinishEpoch move only the running epoch and the phase. */
  lemma SwitchInv(s: State, step: Step)
    requires Inv(s) && (step == Trigger || step == FinishEpoch) && Enabled(s, step)
    ensures Inv(Apply(s, step))
  {
    var s' := Apply(s, step);
    forall i: Ino, e: nat | e < MAX ensures PairOk(s', i, e) {
      assert PairOk(s, i, e);
    }
    forall i: Ino, k: nat | k < MAX ensures ListOk(s', i, k) {
      assert ListOk(s, i, k);
    }
  }

  lemma StepInv(s: State, step: Step)
    requires Inv(s) && Enabled(s, step)
    ensures Inv(Apply(s, step))
  {
    hide PairOk, ListOk, NoDup;
    match step
    case Insert(ino, log) =>
      CheckinInv(s, ino);
      LinkInv(Checkin(s, ino), ino, log);
    case Trigger => SwitchInv(s, Trigger);
    case PickInode => PickInv(s);
    case TakeLog => TakeInv(s);
    case DropInode => DropInv(s);
    case FinishEpoch => SwitchInv(s, FinishEpoch);
  }

  // ----- runs

  ghost predicate Follows(s: State, steps: seq<Step>, s': State)
    decreases |steps|
  {
    if steps == [] then s' == s
    else Typed(s) && Enabled(s, steps[0]) && Follows(Apply(s, steps[0]), steps[1..], s')
  }

  lemma {:induction false} RunInv(s: State, steps: seq<Step>, s': State)
    requires Inv(s) && Follows(s, steps, s')
    ensures Inv(s')
    decreases |steps|
  {
    hide PairOk, ListOk, NoDup, Inv;
    InvTyped(s);
    if steps != [] {
      StepInv(s, steps[0]);
      RunInv(Apply(s, steps[0]), steps[1..], s');
    }
  }

  lemma InvTyped(s: State)
    requires Inv(s)
    ensures Typed(s)
  {
  }

  /**
   Conservation, in every state of every run: the logs consumed by the commit of an epoch are a prefix
   of the logs linked for it, in the order they were linked; what is missing is exactly the content of
   the list registered for that epoch; and idle lists are empty.
   */
  lemma Conservation(steps: seq<Step>, s: State, ino: Ino, e: nat, l: nat)
    requires Follows(Init(), steps, s) && e < MAX && l < MAX
    ensures Typed(s)
    ensures s.Consumed(ino, e) <= s.Linked(ino, e)
    ensures !s.Registered(ino, e) ==> s.Consumed(ino, e) == s.Linked(ino, e)
    ensures s.Registered(ino, e) ==>
      s.Of(ino).g2l[e] < MAX && s.Linked(ino, e) == s.Consumed(ino, e) + s.Of(ino).lists[s.Of(ino).g2l[e]]
    ensures s.Of(ino).status[l] == Idle ==> s.Of(ino).lists[l] == []
  {
    InitInv();
    RunInv(Init(), steps, s);
    assert PairOk(s, ino, e) && ListOk(s, ino, l);
  }

  /** When the commit of an epoch ends, everything ever linked for that epoch has been consumed. */
  lemma CommitIsComplete(steps: seq<Step>, s: State, ino: Ino)
    requires Follows(Init(), steps, s) && Typed(s) && Enabled(s, FinishEpoch)
    ensures s.Consumed(ino, s.phase.e) == s.Linked(ino, s.phase.e)
  {
    Conservation(steps, s, ino, s.phase.e, 0);
  }

  /**
   Only the commit of an epoch consumes its logs, one at a time and each the next of its list; nothing is
   unlinked.
   */
  lemma ConsumedByOwnCommit(s: State, step: Step, ino: Ino, e: nat)
    requires Inv(s) && Enabled(s, step) && e < MAX
    ensures
      var s' := Apply(s, step);
      var (was, now) := (s.Consumed(ino, e), s'.Consumed(ino, e));
      && (now == was ||
          (step == TakeLog && s.phase == Emptying(e, ino) && |was| < |s.Linked(ino, e)| &&
            now == was + [s.Linked(ino, e)[|was|]]))
      && s.Linked(ino, e) <= s'.Linked(ino, e)
  {
    hide ListOk, NoDup;
    assert PairOk(s, ino, e);
    if step == TakeLog {
      TakenIsNext(s, ino, e);
    } else if step.Insert? {
      LinkedGrows(s, step.ino, step.log, ino, e);
    }
  }

  lemma TakenIsNext(s: State, ino: Ino, e: nat)
    requires Inv(s) && Enabled(s, TakeLog) && e < MAX
    ensures
      var s' := Apply(s, TakeLog);
      var (was, now) := (s.Consumed(ino, e), s'.Consumed(ino, e));
      && (now == was ||
          (s.phase == Emptying(e, ino) && |was| < |s.Linked(ino, e)| && now == was + [s.Linked(ino, e)[|was|]]))
      && s'.linked == s.linked
  {
    hide ListOk, NoDup;
    assert PairOk(s, ino, e);
    if s.phase == Emptying(e, ino) {
      assert s.Registered(ino, e);
    }
  }

  lemma LinkedGrows(s: State, i: Ino, log: Log, ino: Ino, e: nat)
    requires Typed(s)
    ensures
      var s' := Apply(s, Insert(i, log));
      s'.consumed == s.consumed && s.Linked(ino, e) <= s'.Linked(ino, e)
  {
    var c := Checkin(s, i);
    assert c.linked == s.linked && c.consumed == s.consumed;
  }

  /** A linked log goes to the epoch its list is registered for, and that epoch is still to be committed. */
  lemma LinkedForLiveEpoch(s: State, ino: Ino, log: Log)
    requires Inv(s) && Accepts(Checkin(s, ino).Of(ino))
    ensures
      var s', n := Apply(s, Insert(ino, log)), Checkin(s, ino).Of(ino);
      var e := n.owner[n.active];
      && s'.Linked(ino, e) == s.Linked(ino, e) + [log]
      && s'.Registered(ino, e) && s'.phase != Emptying(e, ino)
      && (forall i: Ino, d: nat :: (i, d) != (ino, e) ==> s'.Linked(i, d) == s.Linked(i, d))
  {
    CheckinInv(s, ino);
    var c := Checkin(s, ino);
    var n := c.Of(ino);
    assert ListOk(c, ino, n.active);
    assert PairOk(c, ino, n.owner[n.active]);
  }

  /** The commit thread is never stuck: in every reachable state but between rounds it has a step, and one alone. */
  lemma CommitThreadMoves(s: State)
    requires Inv(s)
    ensures s.phase == Sleeping <==> Enabled(s, Trigger)
    ensures s.phase.Between? ==> (Enabled(s, PickInode) <==> !Enabled(s, FinishEpoch))
    ensures s.phase.Emptying? ==> (Enabled(s, TakeLog) <==> !Enabled(s, DropInode))
  {
    if s.phase.Between? && s.regs[s.phase.e] != [] {
      assert PairOk(s, s.regs[s.phase.e][0], s.phase.e);
    }
    if s.phase.Emptying? {
      assert PairOk(s, s.phase.ino, s.phase.e);
    }
  }

  // ----- the calls, without interleaving

  lemma {:induction false} FollowsOneMore(s: State, steps: seq<Step>, s': State, step: Step)
    requires Follows(s, steps, s') && Typed(s') && Enabled(s', step)
    ensures Follows(s, steps + [step], Apply(s', step))
    decreases |steps|
  {
    var more := steps + [step];
    if steps == [] {
      assert more[1..] == [];
    } else {
      assert more[1..] == steps[1..] + [step];
      FollowsOneMore(Apply(s, steps[0]), steps[1..], s', step);
    }
  }

  // ----- which inserts are accepted

  /** What an insert does to the logs linked for each inode and epoch. */
  ghost predicate LinksOnly(s: State, s': State, ino: Ino, e: nat, log: Log) {
    && s'.Linked(ino, e) == s.Linked(ino, e) + [log]
    && (forall i: Ino, d: nat :: (i, d) != (ino, e) ==> s'.Linked(i, d) == s.Linked(i, d))
  }

  /**
   An insert registers the inode for the running epoch and links the log for it, if the inode was never
   registered under that index and has an idle list.  Otherwise it links it for the epoch of the active list,
   if there is one in use, and is refused if there is not.
   */
  lemma InsertExactly(s: State, ino: Ino, log: Log)
    requires Inv(s)
    ensures
      var n, s' := s.Of(ino), Apply(s, Insert(ino, log));
      if n.g2l[s.running] >= MAX && Idle in n.status then
        LinksOnly(s, s', ino, s.running, log) && s'.Registered(ino, s.running)
      else if n.active < MAX && n.status[n.active] == InUse then
        LinksOnly(s, s', ino, n.owner[n.active], log) && s'.regs == s.regs
      else s' == s
  {
    hide PairOk, ListOk, NoDup;
    var n := s.Of(ino);
    var l := IdleFrom(n.status, 0);
    if n.g2l[s.running] >= MAX && Idle in n.status {
      assert l < MAX;
      CheckinShape(s, ino);
    }
    assert l < MAX ==> n.status[l] == Idle;
    if Accepts(Checkin(s, ino).Of(ino)) {
      CheckinInv(s, ino);
      LinkShape(Checkin(s, ino), ino, log);
    }
  }

  /** The first insert into an inode is accepted, for the running epoch. */
  lemma FirstInsert(s: State, ino: Ino, log: Log)
    requires Inv(s) && ino !in s.inodes
    ensures LinksOnly(s, Apply(s, Insert(ino, log)), ino, s.running, log)
  {
    hide PairOk, ListOk, NoDup, LinksOnly;
    var n := s.Of(ino);
    assert n == NewInode();
    assert n.status[0] == Idle && n.g2l[s.running] == NONE;
    InsertExactly(s, ino, log);
  }

  /** After an insert that was accepted the next one into this inode is too, for the same epoch and behind it. */
  lemma NextInsert(s: State, s': State, ino: Ino, e: nat, log: Log, next: Log)
    requires Inv(s) && s' == Apply(s, Insert(ino, log)) && Inv(s')
    requires LinksOnly(s, s', ino, e, log)
    ensures LinksOnly(s', Apply(s', Insert(ino, next)), ino, e, next)
  {
    hide PairOk, ListOk, NoDup;
    var c := Checkin(s, ino);
    InsertExactly(s, ino, log);
    InsertExactly(s', ino, next);
    CheckinInv(s, ino);
    assert s.Linked(ino, e) + [log] != s.Linked(ino, e);
    assert Accepts(c.Of(ino));
    LinkShape(c, ino, log);
    assert c.Of(ino).owner[c.Of(ino).active] == e;
    assert s'.Of(ino).status == c.Of(ino).status && s'.Of(ino).active == c.Of(ino).active;
  }

  /** The list an inode has under an index is never taken back. */
  lemma {:induction false} TakenForGood(s: State, steps: seq<Step>, s': State, ino: Ino, e: nat)
    requires Inv(s) && Follows(s, steps, s') && e < MAX && s.Of(ino).g2l[e] < MAX
    ensures Inv(s') && s'.Of(ino).g2l[e] == s.Of(ino).g2l[e]
    decreases |steps|
  {
    hide PairOk, ListOk, NoDup;
    if steps != [] {
      StepInv(s, steps[0]);
      if steps[0].Insert? {
        KeepsTaken(s, steps[0].ino, steps[0].log, ino, e);
      }
      TakenForGood(Apply(s, steps[0]), steps[1..], s', ino, e);
    }
  }

  lemma KeepsTaken(s: State, i: Ino, log: Log, ino: Ino, e: nat)
    requires Typed(s) && e < MAX && s.Of(ino).g2l[e] < MAX
    ensures Apply(s, Insert(i, log)).Of(ino).g2l[e] == s.Of(ino).g2l[e]
  {
    var c := Checkin(s, i);
    assert c.Of(ino).g2l[e] == s.Of(ino).g2l[e];
  }

  /**
   So an insert can be refused although all lists are idle and no commit is running: the inode was registered
   and committed once, and the running epoch has come back to the same index.
   */
  lemma InsertIsRefused(ino: Ino, first: Log, log: Log) returns (steps: seq<Step>, s: State)
    ensures Follows(Init(), steps, s) && Inv(s)
    ensures s.phase == Sleeping && forall l :: 0 <= l < MAX ==> s.Of(ino).status[l] == Idle
    ensures Apply(s, Insert(ino, log)) == s
  {
    hide PairOk, ListOk, NoDup, Inv, Follows;
    steps, s := CommittedOnce(ino, first);
    InvTyped(s);
    steps, s := IdleRounds(Init(), steps, s, MAX - 1);
    InsertExactly(s, ino, log);
    hide Apply;
  }

  /** One log is inserted, and its epoch committed. */
  lemma CommittedOnce(ino: Ino, log: Log) returns (steps: seq<Step>, s: State)
    ensures Follows(Init(), steps, s) && Inv(s) && |s.regs| == MAX
    ensures s.phase == Sleeping && s.running == 1 && forall e: nat :: e < MAX ==> s.regs[e] == []
    ensures s.Of(ino) == NewInode().(active := NONE, g2l := NewInode().g2l[0 := 0])
  {
    hide PairOk, ListOk, NoDup, Inv, Follows, Checkin, LinkLog;
    var start := Init();
    InitInv();
    steps, s := [], start;
    FollowsNone(start);
    AfterFirst(ino, log);
    steps, s := Next(start, steps, s, Insert(ino, log));
    steps, s := Next(start, steps, s, Trigger);
    steps, s := Next(start, steps, s, PickInode);
    steps, s := Next(start, steps, s, TakeLog);
    steps, s := Next(start, steps, s, DropInode);
    steps, s := Next(start, steps, s, FinishEpoch);
  }

  lemma AfterFirst(ino: Ino, log: Log)
    ensures Typed(Init())
    ensures
      var s, blank := Apply(Init(), Insert(ino, log)), NewInode();
      && s.regs == Init().regs[0 := [ino]] && s.running == 0 && s.phase == Sleeping
      && s.Of(ino) ==
        Inode(0, blank.g2l[0 := 0], blank.status[0 := InUse], blank.lists[0 := [log]], blank.owner[0 := 0])
  {
    var s, blank := Init(), NewInode();
    assert s.Of(ino) == blank && blank.status[0] == Idle;
    CheckinShape(s, ino);
    var c := Checkin(s, ino);
    assert s.regs[0] + [ino] == [ino];
    assert c.Of(ino).lists[0] + [log] == [log];
    LinkShape(c, ino, log);
  }

  lemma FollowsNone(s: State)
    ensures Follows(s, [], s)
  {
  }

  lemma Next(start: State, steps: seq<Step>, s: State, step: Step) returns (steps': seq<Step>, s': State)
    requires Inv(s) && Follows(start, steps, s) && Typed(s) && Enabled(s, step)
    ensures Inv(s') && Typed(s') && Follows(start, steps', s') && s' == Apply(s, step)
  {
    hide PairOk, ListOk, NoDup, Follows, Inv;
    FollowsOneMore(start, steps, s, step);
    StepInv(s, step);
    steps', s' := steps + [step], Apply(s, step);
    InvTyped(s');
  }

  lemma ModStep(a: nat)
    ensures (a % MAX + 1) % MAX == (a + 1) % MAX
  {
  }

  /** Rounds in which nothing is registered move the running epoch on and nothing else. */
  lemma {:induction false} IdleRounds(start: State, steps: seq<Step>, s: State, k: nat)
    returns (steps': seq<Step>, s': State)
    requires Inv(s) && Typed(s) && Follows(start, steps, s) && s.phase == Sleeping
    requires forall e: nat :: e < MAX ==> s.regs[e] == []
    ensures Inv(s') && Typed(s') && Follows(start, steps', s') && s' == s.(running := (s.running + k) % MAX)
    decreases k
  {
    hide Inv, Follows, Shaped;
    steps', s' := steps, s;
    if k > 0 {
      steps', s' := IdleRounds(start, steps, s, k - 1);
      ModStep(s.running + k - 1);
      steps', s' := Next(start, steps', s', Trigger);
      steps', s' := Next(start, steps', s', FinishEpoch);
    }
  }

  class Journal {
    var s: State

    ghost predicate Valid()
      reads this
    {
      Inv(s)
    }

    /** init_global_epoch. */
    constructor ()
      ensures Valid() && s == Init()
    {
      s := Init();
      new;
      InitInv();
    }

    /** get_idle_local_epoch. */
    method GetIdleLocalEpoch(ino: Ino) returns (i: nat)
      requires Valid()
      ensures i == IdleFrom(s.Of(ino).status, 0) <= MAX
    {
      var status := s.Of(ino).status;
      i := 0;
      while i < MAX && status[i] != Idle
        invariant i <= MAX && IdleFrom(status, 0) == IdleFrom(status, i)
      {
        i := i + 1;
      }
      if i == MAX {
        i := 0;
        while i < MAX && status[i] != Idle
          invariant i <= MAX && IdleFrom(status, 0) == IdleFrom(status, i)
        {
          i := i + 1;
        }
      }
    }

    /** insert_log_into_inode, with ino_checkin_global_epoch. */
    method InsertLog(ino: Ino, log: Log) returns (ok: bool)
      requires Valid()
      modifies this
      ensures Valid() && s == Apply(old(s), Insert(ino, log))
      ensures ok <==> Accepts(Checkin(old(s), ino).Of(ino))
      ensures !ok ==> s.linked == old(s.linked)
    {
      StepInv(s, Insert(ino, log));
      var n := s.Of(ino);
      if n.g2l[s.running] >= NONE {
        var l := GetIdleLocalEpoch(ino);
        if l < MAX {
          n := Inode(l, n.g2l[s.running := l], n.status[l := InUse], n.lists, n.owner[l := s.running]);
          s := s.(inodes := s.inodes[ino := n], regs := s.regs[s.running := s.regs[s.running] + [ino]]);
        }
      }
      if n.active >= MAX {
        return false;
      }
      if n.status[n.active] != InUse {
        return false;
      }
      s := LinkLog(s, ino, log);
      ok := true;
    }

    /** trigger_epoch_commit. */
    method TriggerEpochCommit()
      requires Valid() && s.phase == Sleeping
      modifies this
      ensures Valid() && s == Apply(old(s), Trigger)
    {
      SwitchInv(s, Trigger);
      s := s.(phase := Between(s.running), running := (s.running + 1) % MAX);
    }

    /** One inode of the epoch being committed: aggregate_per_ino_log between two changes of its list's status. */
    method CommitInode(ghost start: State, ghost trace: seq<Step>) returns (ghost trace': seq<Step>)
      requires Valid() && s.phase.Between? && s.regs[s.phase.e] != [] && Follows(start, trace, s)
      modifies this
      ensures Valid() && Follows(start, trace', s)
      ensures s.phase == old(s.phase) && s.linked == old(s.linked) && s.regs[s.phase.e] == old(s.regs[s.phase.e])[1..]
    {
      hide PairOk, ListOk, NoDup, Inv;
      InvTyped(s);
      CommitThreadMoves(s);
      FollowsOneMore(start, trace, s, PickInode);
      PickInv(s);
      trace' := trace + [PickInode];
      s := Apply(s, PickInode);
      InvTyped(s);
      CommitThreadMoves(s);
      var e, ino := s.phase.e, s.phase.ino;
      while s.Of(ino).lists[s.Of(ino).g2l[e]] != []
        invariant Inv(s) && Typed(s) && s.phase == Emptying(e, ino) && CurrentList(s) < MAX && Follows(start, trace', s)
        invariant s.linked == old(s.linked) && s.regs == old(s.regs) && s.regs[e][0] == ino
        decreases |s.Of(ino).lists[s.Of(ino).g2l[e]]|
      {
        FollowsOneMore(start, trace', s, TakeLog);
        TakeInv(s);
        trace' := trace' + [TakeLog];
        s := Apply(s, TakeLog);
        InvTyped(s);
      }
      FollowsOneMore(start, trace', s, DropInode);
      DropInv(s);
      trace' := trace' + [DropInode];
      s := Apply(s, DropInode);
    }

    /** epoch_commit: afterwards everything linked for the epoch has been consumed; the call is a run of the machine. */
    method EpochCommit() returns (ghost trace: seq<Step>)
      requires Valid() && s.phase.Between?
      modifies this
      ensures Valid() && s.phase == Sleeping && Follows(old(s), trace, s)
      ensures s.regs[old(s.phase.e)] == [] && s.linked == old(s.linked)
      ensures forall ino: Ino :: s.Consumed(ino, old(s.phase.e)) == s.Linked(ino, old(s.phase.e))
    {
      trace := [];
      var e := s.phase.e;
      while s.regs[e] != []
        invariant Valid() && s.phase == Between(e) && Follows(old(s), trace, s) && s.linked == old(s.linked)
        decreases |s.regs[e]|
      {
        trace := CommitInode(old(s), trace);
      }
      FollowsOneMore(old(s), trace, s, FinishEpoch);
      SwitchInv(s, FinishEpoch);
      trace := trace + [FinishEpoch];
      s := s.(phase := Sleeping);
      Drained(s, e);
    }
  }

  lemma Drained(s: State, e: nat)
    requires Inv(s) && e < MAX && s.regs[e] == []
    ensures forall ino: Ino :: s.Consumed(ino, e) == s.Linked(ino, e)
  {
    forall ino: Ino ensures s.Consumed(ino, e) == s.Linked(ino, e) {
      assert PairOk(s, ino, e);
    }
  }
}
