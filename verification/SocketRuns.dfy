/**
 Everything that can happen to an epoll port between its creation and its
 closing, in any order: ctl calls, waits starting and waits ending with
 completions. The invariant of SocketSpec holds after every such run.
 */
module SocketRuns {
  import opened QueueSpec
  import opened SocketSpec
  import PollGroups

  const INVALID_SOCKET: Socket := 0xffff_ffff_ffff_ffff

  /** What the kernel says to the i-th poll request: its answer, and whether a cancellation works. */
  type Answers = nat -> (PollAnswer, bool)

  /** Each step is one stretch of work under the port's lock. */
  datatype Op =
    | Add(s: Socket, events: Mask, data: nat, mem: Addr, baseOk: bool, handleOk: bool, answers: Answers)
    | Mod(s: Socket, events: Mask, data: nat, answers: Answers)
    | Del(s: Socket, cancelOk: bool)
    | StartWait(answers: Answers)
    | EndWait(completions: seq<(Addr, Completion)>)
    | Refresh(answers: Answers)    // the last thing a wait does, if others are under way

  /** Memory is fresh when handed out, and only outstanding polls complete, each once. */
  ghost predicate Possible(v: View, active: nat, op: Op) {
    match op
    case Add(_, _, _, mem, _, _, _) => mem !in v.socks
    case Mod(_, _, _, _) => true
    case Del(_, _) => true
    case StartWait(_) => true
    case Refresh(_) => true
    case EndWait(cs) => active > 0 && Outstanding(v, cs, 0)
  }

  ghost predicate Outstanding(v: View, cs: seq<(Addr, Completion)>, i: nat) {
    && (forall j :: i <= j < |cs| ==> cs[j].0 in v.polls)
    && (forall j, k :: i <= j < k < |cs| ==> cs[j].0 != cs[k].0)
  }

  /** port__update_events_if_polling. */
  ghost function Refreshed(v: View, active: nat, answers: Answers): View
    requires Inv(v)
  {
    if active > 0 then UpdateAll(v, answers, 0).0 else v
  }

  /** sock_new with its checks. */
  ghost function Created(v: View, op: Op): (View, bool)
    requires op.Add?
  {
    if op.s == 0 || op.s == INVALID_SOCKET || !op.baseOk then (v, false)
    else NewSock(v, op.mem, op.s, op.handleOk)
  }

  /** EPOLL_CTL_ADD. */
  ghost function Added(v: View, active: nat, op: Op): View
    requires Inv(v) && op.Add? && Possible(v, active, op)
  {
    var (v', ok) := Created(v, op);
    if !ok then v'
    else
      CreatedKeeps(v, active, op);
      Refreshed(SetEvent(v', op.mem, op.events, op.data), active, op.answers)
  }

  /** EPOLL_CTL_MOD. */
  ghost function Modified(v: View, active: nat, op: Op): View
    requires Inv(v) && op.Mod?
  {
    if op.s !in v.tree then v
    else
      SetEventKeeps(v, v.tree[op.s], op.events, op.data);
      Refreshed(SetEvent(v, v.tree[op.s], op.events, op.data), active, op.answers)
  }

  /** EPOLL_CTL_DEL. */
  function Dropped(v: View, s: Socket, cancelOk: bool): View
    requires s in v.tree ==> v.tree[s] in v.socks
  {
    if s in v.tree then Delete(v, v.tree[s], false, cancelOk) else v
  }

  /** The port after a step, and the number of waits under way. */
  ghost function Step(v: View, active: nat, op: Op): (View, nat)
    requires Inv(v) && Possible(v, active, op)
  {
    match op
    case Add(_, _, _, _, _, _, _) => (Added(v, active, op), active)
    case Mod(_, _, _, _) => (Modified(v, active, op), active)
    case Del(s, cancelOk) => (Dropped(v, s, cancelOk), active)
    case StartWait(answers) =>
      var (v', ok) := UpdateAll(v, answers, 0);
      (v', if ok then active + 1 else active)
    case EndWait(cs) => (FeedFrom(v, cs, 0).0, active - 1)
    case Refresh(answers) => (Refreshed(v, active, answers), active)
  }

  // ----- the invariant

  /** The poll groups have no part in the first half of the invariant. */
  lemma InvIgnoresGroups(v: View, u: View)
    requires Inv(v) && u.tree == v.tree && u.socks == v.socks && u.polls == v.polls
    requires u.updates == v.updates && u.deleted == v.deleted
    ensures Inv(u)
  {
    forall a | a in u.socks ensures SockOk(u, a) && (Interested(u, a) <==> Interested(v, a)) {
      assert SockOk(v, a);
    }
  }

  lemma CreatedKeeps(v: View, active: nat, op: Op)
    requires Inv(v) && op.Add? && Possible(v, active, op)
    ensures var (v', ok) := Created(v, op);
            if ok then op.mem in v'.socks && Inv(SetEvent(v', op.mem, op.events, op.data)) else Inv(v')
  {
    var r := PollGroups.Acquired(v.groups, op.handleOk);
    if r.Some? {
      var (groups, g) := r.value;
      var u := TakeSlot(v, groups);
      InvIgnoresGroups(v, u);
      InvIgnoresGroups(v, u.(groups := PollGroups.Released(groups, g)));
      if op.s !in v.tree {
        AddKeeps(u, op.mem, op.s, g, op.events, op.data);
      }
    }
  }

  lemma CreatedSlots(v: View, op: Op)
    requires Slots(v) && op.Add? && op.mem !in v.socks
    ensures Slots(Created(v, op).0)
  {
    NewSockSlots(v, op.mem, op.s, op.handleOk);
  }

  lemma {:induction false} UpdateAllSlots(v: View, answers: Answers, i: nat)
    requires Inv(v) && Slots(v)
    ensures Slots(UpdateAll(v, answers, i).0)
    decreases |v.updates|
  {
    if v.updates != [] {
      var a := v.updates[0];
      UpdateKeeps(v, a, answers(i).0, answers(i).1);
      match Update(v, a, answers(i).0, answers(i).1)
      case Failed =>
      case Done(v') =>
        UpdateSlots(v, a, answers(i).0, answers(i).1);
        UpdateAllSlots(v', answers, i + 1);
    }
  }

  lemma RefreshedKeeps(v: View, active: nat, answers: Answers)
    requires Inv(v)
    ensures Inv(Refreshed(v, active, answers))
    ensures Slots(v) ==> Slots(Refreshed(v, active, answers))
  {
    UpdateAllKeeps(v, answers, 0);
    if Slots(v) { UpdateAllSlots(v, answers, 0); }
  }

  lemma OutstandingNext(v: View, cs: seq<(Addr, Completion)>, i: nat)
    requires Inv(v) && Outstanding(v, cs, i) && i < |cs|
    ensures cs[i].0 in v.socks && Outstanding(Feed(v, cs[i].0, cs[i].1), cs, i + 1)
  {
    FeedKeeps(v, cs[i].0, cs[i].1);
    FeedPolls(v, cs[i].0, cs[i].1);
  }

  lemma {:induction false} FeedFromKeeps(v: View, cs: seq<(Addr, Completion)>, i: nat)
    requires Inv(v) && Outstanding(v, cs, i)
    ensures Inv(FeedFrom(v, cs, i).0)
    ensures Slots(v) ==> Slots(FeedFrom(v, cs, i).0)
    decreases |cs| - i
  {
    if i < |cs| {
      FeedKeeps(v, cs[i].0, cs[i].1);
      OutstandingNext(v, cs, i);
      if Slots(v) { FeedSlots(v, cs[i].0, cs[i].1); }
      FeedFromKeeps(Feed(v, cs[i].0, cs[i].1), cs, i + 1);
    }
  }

  lemma StepKeeps(v: View, active: nat, op: Op)
    requires Inv(v) && Possible(v, active, op)
    ensures Inv(Step(v, active, op).0)
  {
    match op
    case Add(s, events, data, mem, _, _, answers) =>
      CreatedKeeps(v, active, op);
      var (v', ok) := Created(v, op);
      if ok { RefreshedKeeps(SetEvent(v', mem, events, data), active, answers); }
    case Mod(s, events, data, answers) =>
      if s in v.tree {
        SetEventKeeps(v, v.tree[s], events, data);
        RefreshedKeeps(SetEvent(v, v.tree[s], events, data), active, answers);
      }
    case Del(s, cancelOk) =>
      if s in v.tree { DeleteKeeps(v, v.tree[s], cancelOk); }
    case StartWait(answers) => UpdateAllKeeps(v, answers, 0);
    case EndWait(cs) => FeedFromKeeps(v, cs, 0);
    case Refresh(answers) => RefreshedKeeps(v, active, answers);
  }

  lemma StepSlots(v: View, active: nat, op: Op)
    requires Inv(v) && Possible(v, active, op) && Slots(v)
    ensures Slots(Step(v, active, op).0)
  {
    match op
    case Add(s, events, data, mem, _, _, answers) =>
      CreatedKeeps(v, active, op);
      CreatedSlots(v, op);
      var (v', ok) := Created(v, op);
      if ok {
        SetEventSlots(v', mem, events, data);
        RefreshedKeeps(SetEvent(v', mem, events, data), active, answers);
      }
    case Mod(s, events, data, answers) =>
      if s in v.tree {
        SetEventKeeps(v, v.tree[s], events, data);
        SetEventSlots(v, v.tree[s], events, data);
        RefreshedKeeps(SetEvent(v, v.tree[s], events, data), active, answers);
      }
    case Del(s, cancelOk) =>
      if s in v.tree { DeleteSlots(v, v.tree[s], false, cancelOk); }
    case StartWait(answers) => UpdateAllSlots(v, answers, 0);
    case EndWait(cs) => FeedFromKeeps(v, cs, 0);
    case Refresh(answers) => RefreshedKeeps(v, active, answers);
  }

  // ----- whole runs

  const Fresh := View(map[], map[], [], [], PollGroups.Groups([], [], map[], 0), map[], 0)

  ghost predicate Runs(v: View, active: nat, ops: seq<Op>)
    requires Inv(v)
    decreases |ops|
  {
    ops == [] ||
    (Possible(v, active, ops[0]) &&
     (StepKeeps(v, active, ops[0]);
      var (v', active') := Step(v, active, ops[0]);
      Runs(v', active', ops[1..])))
  }

  ghost function After(v: View, active: nat, ops: seq<Op>): (View, nat)
    requires Inv(v) && Runs(v, active, ops)
    decreases |ops|
  {
    if ops == [] then (v, active)
    else
      StepKeeps(v, active, ops[0]);
      var (v', active') := Step(v, active, ops[0]);
      After(v', active', ops[1..])
  }

  lemma FreshOk()
    ensures Inv(Fresh) && Slots(Fresh)
  {
  }

  lemma {:induction false} RunKeeps(v: View, active: nat, ops: seq<Op>)
    requires Inv(v) && Slots(v) && Runs(v, active, ops)
    ensures var (v', _) := After(v, active, ops); Inv(v') && Slots(v')
    decreases |ops|
  {
    if ops != [] {
      StepKeeps(v, active, ops[0]);
      StepSlots(v, active, ops[0]);
      var (v', active') := Step(v, active, ops[0]);
      RunKeeps(v', active', ops[1..]);
    }
  }

  ghost predicate PortRun(ops: seq<Op>) {
    FreshOk();
    Runs(Fresh, 0, ops)
  }

  /** What a run from a new port leaves behind. */
  ghost function Outcome(ops: seq<Op>): View
    requires PortRun(ops)
  {
    FreshOk();
    After(Fresh, 0, ops).0
  }

  lemma OutcomeOk(ops: seq<Op>)
    requires PortRun(ops)
    ensures Inv(Outcome(ops)) && Slots(Outcome(ops))
  {
    FreshOk();
    RunKeeps(Fresh, 0, ops);
  }

  /**
   No lost interest: after every run, each registered socket waits for an update, or has a cancelled
   poll under way, or a poll that makes the kernel watch for everything the user asked for.
   */
  lemma NoLostInterest(ops: seq<Op>, s: Socket)
    requires PortRun(ops) && s in Outcome(ops).tree
    ensures var v := Outcome(ops); var a := v.tree[s];
            && a in v.socks && v.socks[a].socket == s
            && (a in v.updates ||
                (a in v.polls && (v.socks[a].status == PollCancelled || ToAfd(v.socks[a].userEvents) <= v.polls[a])))
  {
    OutcomeOk(ops);
    var v := Outcome(ops);
    var a := v.tree[s];
    assert SockOk(v, a) && Interested(v, a);
    if a !in v.updates && v.socks[a].status == PollPending {
      CoverReachesKernel(v.socks[a].userEvents, v.socks[a].pendingEvents);
    }
  }

  /** After every run, polls belong to live sockets that know of them, and each queue holds its own kind. */
  lemma PollsAndQueues(ops: seq<Op>, a: Addr)
    requires PortRun(ops)
    ensures var v := Outcome(ops);
            && (a in v.polls <==> a in v.socks && v.socks[a].status != PollIdle)
            && (a in v.updates ==> a !in v.deleted && a in v.socks && !v.socks[a].deletePending
                                   && v.socks[a].socket in v.tree && v.tree[v.socks[a].socket] == a)
            && (a in v.deleted ==> a in v.polls && v.socks[a].deletePending && a !in v.tree.Values)
  {
    OutcomeOk(ops);
    var v := Outcome(ops);
    if a in v.socks { assert SockOk(v, a); }
  }

  /** After every run there are exactly as many poll groups as the busiest moment needed. */
  lemma GroupsFollowPeak(ops: seq<Op>)
    requires PortRun(ops)
    ensures var v := Outcome(ops);
            && |v.socks| == PollGroups.Sum(v.groups.size) <= v.peak
            && |v.groups.size| == (v.peak + PollGroups.MAX_GROUP_SIZE - 1) / PollGroups.MAX_GROUP_SIZE
  {
    OutcomeOk(ops);
    var v := Outcome(ops);
    PollGroups.GroupsForIsCeiling(|v.groups.size|, v.peak);
  }

  // ----- a deleted socket waits for its completion, and for nothing else

  /** Marked for deletion, and still known to the kernel. */
  ghost predicate Dying(v: View, a: Addr) {
    a in v.socks && v.socks[a].deletePending
  }

  lemma UpdateSpares(v: View, a: Addr, b: Addr, poll: PollAnswer, cancelOk: bool)
    requires a in v.socks && b in v.socks && b != a
    ensures var r := Update(v, a, poll, cancelOk);
            r.Done? ==> b in r.view.socks && r.view.socks[b] == v.socks[b]
  {
  }

  lemma {:induction false} UpdateAllSpares(v: View, answers: Answers, i: nat, b: Addr)
    requires Inv(v) && Dying(v, b)
    ensures var v' := UpdateAll(v, answers, i).0; Dying(v', b) && v'.socks[b] == v.socks[b]
    decreases |v.updates|
  {
    if v.updates != [] {
      var a := v.updates[0];
      assert SockOk(v, b);
      UpdateKeeps(v, a, answers(i).0, answers(i).1);
      UpdateSpares(v, a, b, answers(i).0, answers(i).1);
      match Update(v, a, answers(i).0, answers(i).1)
      case Failed =>
      case Done(v') => UpdateAllSpares(v', answers, i + 1, b);
    }
  }

  lemma FeedSpares(v: View, a: Addr, b: Addr, c: Completion)
    requires a in v.socks && b in v.socks && b != a
    ensures b in Feed(v, a, c).socks && Feed(v, a, c).socks[b] == v.socks[b]
  {
  }

  /** Only its own completion releases it, and that does so at once. */
  lemma {:induction false} FeedFromReleases(v: View, cs: seq<(Addr, Completion)>, i: nat, b: Addr)
    requires Inv(v) && Outstanding(v, cs, i) && Dying(v, b)
    ensures var v' := FeedFrom(v, cs, i).0;
            if exists j :: i <= j < |cs| && cs[j].0 == b then b !in v'.socks
            else Dying(v', b) && v'.socks[b] == v.socks[b]
    decreases |cs| - i
  {
    if i < |cs| {
      var a, c := cs[i].0, cs[i].1;
      FeedKeeps(v, a, c);
      OutstandingNext(v, cs, i);
      if a == b {
        ReleaseKeeps(v, b);
        FeedFromOld(Feed(v, a, c), cs, i + 1, b);
      } else {
        FeedSpares(v, a, b, c);
        FeedFromReleases(Feed(v, a, c), cs, i + 1, b);
      }
    }
  }

  /** Completions create no sockets. */
  lemma {:induction false} FeedFromOld(v: View, cs: seq<(Addr, Completion)>, i: nat, b: Addr)
    requires b !in v.socks
    ensures b !in FeedFrom(v, cs, i).0.socks
    decreases |cs| - i
  {
    if i < |cs| && cs[i].0 in v.socks {
      FeedFromOld(Feed(v, cs[i].0, cs[i].1), cs, i + 1, b);
    }
  }

  ghost predicate Completes(op: Op, b: Addr) {
    op.EndWait? && exists j :: 0 <= j < |op.completions| && op.completions[j].0 == b
  }

  lemma CreatedSpares(v: View, op: Op, b: Addr)
    requires op.Add? && b in v.socks && b != op.mem
    ensures var (v', ok) := Created(v, op);
            && b in v'.socks && v'.socks[b] == v.socks[b]
            && (ok ==> op.mem in v'.socks)
  {
  }

  lemma AddSpares(v: View, active: nat, op: Op, b: Addr)
    requires Inv(v) && op.Add? && Possible(v, active, op) && Dying(v, b)
    ensures var v' := Added(v, active, op); Dying(v', b) && v'.socks[b] == v.socks[b]
  {
    CreatedKeeps(v, active, op);
    CreatedSpares(v, op, b);
    var (v', ok) := Created(v, op);
    if ok { UpdateAllSpares(SetEvent(v', op.mem, op.events, op.data), op.answers, 0, b); }
  }

  lemma DropSpares(v: View, s: Socket, cancelOk: bool, b: Addr)
    requires Inv(v) && Dying(v, b)
    ensures var v' := Dropped(v, s, cancelOk); Dying(v', b) && v'.socks[b] == v.socks[b]
  {
  }

  lemma ModSpares(v: View, active: nat, op: Op, b: Addr)
    requires Inv(v) && op.Mod? && Dying(v, b)
    ensures var v' := Modified(v, active, op); Dying(v', b) && v'.socks[b] == v.socks[b]
  {
    if op.s in v.tree {
      SetEventKeeps(v, v.tree[op.s], op.events, op.data);
      UpdateAllSpares(SetEvent(v, v.tree[op.s], op.events, op.data), op.answers, 0, b);
    }
  }

  /** A step releases a dying socket exactly if it brings its completion. */
  lemma StepReleases(v: View, active: nat, op: Op, b: Addr)
    requires Inv(v) && Possible(v, active, op) && Dying(v, b)
    ensures var v' := Step(v, active, op).0;
            if Completes(op, b) then b !in v'.socks else Dying(v', b) && v'.socks[b] == v.socks[b]
  {
    match op
    case Add(_, _, _, _, _, _, _) => AddSpares(v, active, op, b);
    case Mod(_, _, _, _) => ModSpares(v, active, op, b);
    case Del(s, cancelOk) => DropSpares(v, s, cancelOk, b);
    case StartWait(answers) => UpdateAllSpares(v, answers, 0, b);
    case EndWait(cs) => FeedFromReleases(v, cs, 0, b);
    case Refresh(answers) => UpdateAllSpares(v, answers, 0, b);
  }

  /** Over any run, a deleted socket is released exactly when its poll completes, not before. */
  lemma {:induction false} ReleasedByCompletion(v: View, active: nat, ops: seq<Op>, b: Addr)
    requires Inv(v) && Runs(v, active, ops) && Dying(v, b)
    requires forall i :: 0 <= i < |ops| ==> !Completes(ops[i], b)
    ensures var v' := After(v, active, ops).0; Dying(v', b) && b in v'.polls && v'.socks[b] == v.socks[b]
    decreases |ops|
  {
    if ops == [] {
      assert SockOk(v, b);
    } else {
      StepKeeps(v, active, ops[0]);
      StepReleases(v, active, ops[0], b);
      var (v', active') := Step(v, active, ops[0]);
      ReleasedByCompletion(v', active', ops[1..], b);
    }
  }

  // ----- closing

  /** What still holds once the kernel is out of the picture. */
  ghost predicate Listed(v: View) {
    && NoDup(v.deleted) && NoDup(v.updates)
    && (forall a :: a in v.updates || a in v.deleted ==> a in v.socks)
    && (forall a :: a in v.socks ==> if v.socks[a].deletePending then a in v.deleted && a !in v.updates
                                     else a !in v.deleted && v.socks[a].socket in v.tree
                                          && v.tree[v.socks[a].socket] == a)
    && (forall s :: s in v.tree ==> v.tree[s] in v.socks && v.socks[v.tree[s]].socket == s
                                    && !v.socks[v.tree[s]].deletePending)
  }

  lemma InvListed(v: View)
    requires Inv(v)
    ensures Listed(v)
  {
    forall a | a in v.socks ensures SockOk(v, a) {
    }
  }

  lemma ForceDeleteDying(v: View, a: Addr, cancelOk: bool)
    requires Listed(v) && Dying(v, a)
    ensures var v' := Delete(v, a, true, cancelOk);
            && Listed(v') && v'.socks == v.socks - {a} && v'.tree == v.tree && v'.deleted == Without(v.deleted, a)
            && |v'.deleted| < |v.deleted|
  {
    WithoutKeeps(v.deleted, a);
  }

  lemma ForceDeleteRegistered(v: View, a: Addr, cancelOk: bool)
    requires Listed(v) && a in v.socks && !v.socks[a].deletePending
    ensures var v' := Delete(v, a, true, cancelOk);
            && Listed(v') && v'.socks == v.socks - {a} && v'.tree == v.tree - {v.socks[a].socket}
            && v'.deleted == v.deleted
  {
    WithoutKeeps(v.updates, a);
    WithoutAbsent(v.deleted, a);
    var v' := Delete(v, a, true, cancelOk);
    assert v'.updates == Without(v.updates, a) && v'.socks == v.socks - {a};
  }
}
