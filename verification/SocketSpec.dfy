/**
 The sockets of one epoll port, as values: what registering, polling, completing
 and deleting do to them, the invariant all of that keeps, and why no interest
 of the user is ever lost.
 */
module SocketSpec {
  import opened Basics
  import opened QueueSpec
  import PollGroups

  type Socket = nat
  type Addr = nat      // where a sock_state lives
  type Group = nat

  /** A 32-bit mask, as the set of its bits. */
  type Mask = set<nat>

  // epoll events, by bit number
  const IN := 0
  const PRI := 1
  const OUT := 2
  const ERR := 3
  const HUP := 4
  const RDNORM := 6
  const RDBAND := 7
  const WRNORM := 8
  const WRBAND := 9
  const MSG := 10
  const RDHUP := 13
  const ONESHOT := 31
  const KNOWN: Mask := {IN, PRI, OUT, ERR, HUP, RDNORM, RDBAND, WRNORM, WRBAND, MSG, RDHUP}

  // AFD events, by bit number
  const AFD_RECEIVE := 0
  const AFD_RECEIVE_EXPEDITED := 1
  const AFD_SEND := 2
  const AFD_DISCONNECT := 3
  const AFD_ABORT := 4
  const AFD_LOCAL_CLOSE := 5
  const AFD_ACCEPT := 7
  const AFD_CONNECT_FAIL := 8

  function When(c: bool, e: Mask): Mask {
    if c then e else {}
  }

  function ToAfd(e: Mask): Mask {
    {AFD_LOCAL_CLOSE}
    + When(IN in e || RDNORM in e, {AFD_RECEIVE, AFD_ACCEPT})
    + When(PRI in e || RDBAND in e, {AFD_RECEIVE_EXPEDITED})
    + When(OUT in e || WRNORM in e || WRBAND in e, {AFD_SEND})
    + When(IN in e || RDNORM in e || RDHUP in e, {AFD_DISCONNECT})
    + When(HUP in e, {AFD_ABORT})
    + When(ERR in e, {AFD_CONNECT_FAIL})
  }

  function ToEpoll(a: Mask): Mask {
    When(AFD_RECEIVE in a || AFD_ACCEPT in a, {IN, RDNORM})
    + When(AFD_RECEIVE_EXPEDITED in a, {PRI, RDBAND})
    + When(AFD_SEND in a, {OUT, WRNORM, WRBAND})
    + When(AFD_DISCONNECT in a, {IN, RDNORM, RDHUP})
    + When(AFD_ABORT in a, {HUP})
    + When(AFD_CONNECT_FAIL in a, {IN, OUT, ERR, RDNORM, WRNORM, RDHUP})
  }

  datatype Status = PollIdle | PollPending | PollCancelled

  datatype Sock = Sock(
    socket: Socket, group: Group, userEvents: Mask, userData: nat,
    pendingEvents: Mask, status: Status, deletePending: bool)

  /** The port's data. */
  datatype View = View(
    tree: map<Socket, Addr>, socks: map<Addr, Sock>,
    updates: seq<Addr>, deleted: seq<Addr>, groups: PollGroups.Groups,
    // what the kernel keeps: the AFD events of each outstanding poll
    polls: map<Addr, Mask>,
    // history: the most slots ever held
    peak: nat)

  /** The pending poll covers every event the user asked for and the port knows. */
  predicate Covered(k: Sock) {
    k.userEvents * KNOWN <= k.pendingEvents
  }

  // ----- what the operations do

  function Enqueue(q: seq<Addr>, a: Addr): seq<Addr> {
    if a in q then q else q + [a]
  }

  /** A cancelled poll stays outstanding until it completes. */
  function CancelPoll(k: Sock): Sock {
    k.(status := PollCancelled, pendingEvents := {})
  }

  /** The first half of sock__delete: the socket leaves the tree and the update queue. */
  function Unregister(v: View, a: Addr, cancelOk: bool): View
    requires a in v.socks
  {
    var k := v.socks[a];
    if k.deletePending then v
    else
      var k' := if k.status == PollPending && cancelOk then CancelPoll(k) else k;
      v.(tree := v.tree - {k.socket}, updates := Without(v.updates, a),
         socks := v.socks[a := k'.(deletePending := true)])
  }

  /** sock__delete: memory is released now, or kept until the poll completes. */
  function Delete(v: View, a: Addr, force: bool, cancelOk: bool): View
    requires a in v.socks
  {
    var v' := Unregister(v, a, cancelOk);
    if force || v'.socks[a].status == PollIdle
    then v'.(deleted := Without(v'.deleted, a), socks := v'.socks - {a},
             groups := PollGroups.Released(v'.groups, v'.socks[a].group))
    else v'.(deleted := Enqueue(v'.deleted, a))
  }

  /** A slot has been taken, leaving the groups as given. */
  ghost function TakeSlot(v: View, groups: PollGroups.Groups): View {
    v.(groups := groups, peak := PollGroups.Peak(v.peak, PollGroups.Sum(groups.size)))
  }

  function Register(v: View, mem: Addr, s: Socket, g: Group): View {
    v.(tree := v.tree[s := mem], socks := v.socks[mem := Sock(s, g, {}, 0, {}, PollIdle, false)])
  }

  /** sock_new, from the poll group on; a duplicate registration gives the slot back. */
  ghost function NewSock(v: View, mem: Addr, s: Socket, handleOk: bool): (View, bool) {
    match PollGroups.Acquired(v.groups, handleOk)
    case None => (v, false)
    case Some((groups, g)) =>
      var v' := TakeSlot(v, groups);
      if s in v.tree then (v'.(groups := PollGroups.Released(groups, g)), false)
      else (Register(v', mem, s, g), true)
  }

  function SetEvent(v: View, a: Addr, events: Mask, data: nat): View
    requires a in v.socks
  {
    var k := v.socks[a].(userEvents := events + {ERR, HUP}, userData := data);
    v.(socks := v.socks[a := k], updates := if Covered(k) then v.updates else Enqueue(v.updates, a))
  }

  datatype PollAnswer = Submitted | InvalidHandle | PollError

  /** sock_update: `Failed` stands for the error return, which changes nothing. */
  datatype Updated = Failed | Done(view: View)

  function Update(v: View, a: Addr, poll: PollAnswer, cancelOk: bool): Updated
    requires a in v.socks
  {
    var k, rest := v.socks[a], Without(v.updates, a);
    match k.status
    case PollPending =>
      if Covered(k) then Done(v.(updates := rest))
      else if !cancelOk then Failed
      else Done(v.(socks := v.socks[a := CancelPoll(k)], updates := rest))
    case PollCancelled => Done(v.(updates := rest))
    case PollIdle =>
      match poll
      case Submitted =>
        Done(v.(socks := v.socks[a := k.(status := PollPending, pendingEvents := k.userEvents)],
                polls := v.polls[a := ToAfd(k.userEvents)], updates := rest))
      case InvalidHandle => Done(Delete(v, a, false, cancelOk))
      case PollError => Failed
  }

  datatype Completion = StatusCancelled | StatusFailed | Success(handles: nat, events: Mask)

  /** The epoll events a completion stands for, before the user's mask. */
  function Happened(c: Completion): Mask {
    match c
    case StatusCancelled => {}
    case StatusFailed => {ERR}
    case Success(n, e) => if n < 1 then {} else ToEpoll(e)
  }

  predicate LocallyClosed(c: Completion) {
    c.Success? && c.handles >= 1 && AFD_LOCAL_CLOSE in c.events
  }

  function IdleSock(k: Sock): Sock {
    k.(status := PollIdle, pendingEvents := {})
  }

  /** What the user is told: the events that happened and were asked for. */
  function Report(k: Sock, c: Completion): Mask {
    Happened(c) * k.userEvents
  }

  /** A one-shot socket asks for nothing more once it has reported. */
  function AfterReport(k: Sock, c: Completion): Sock {
    if Report(k, c) != {} && ONESHOT in k.userEvents then k.(userEvents := {}) else k
  }

  function Idle(v: View, a: Addr): View
    requires a in v.socks
  {
    v.(socks := v.socks[a := IdleSock(v.socks[a])], polls := v.polls - {a})
  }

  /** sock_feed_event: the poll is over. */
  function Feed(v: View, a: Addr, c: Completion): View
    requires a in v.socks
  {
    var k, v' := v.socks[a], Idle(v, a);
    if k.deletePending || LocallyClosed(c) then Delete(v', a, false, false)
    else v'.(socks := v.socks[a := AfterReport(IdleSock(k), c)], updates := Enqueue(v.updates, a))
  }

  // ----- the invariant

  ghost predicate SockOk(v: View, a: Addr)
    requires a in v.socks
  {
    var k := v.socks[a];
    && (a in v.polls <==> k.status != PollIdle)
    && (k.status == PollPending ==> v.polls[a] == ToAfd(k.pendingEvents))
    && (k.status != PollPending ==> k.pendingEvents == {})
    && (k.deletePending <==> a in v.deleted)
    && (k.deletePending ==> a !in v.updates && k.status != PollIdle)
    && (!k.deletePending ==> k.socket in v.tree && v.tree[k.socket] == a)
  }

  /** Queued for an update, or cancelled and about to be queued, or polled for all that matters. */
  ghost predicate Interested(v: View, a: Addr)
    requires a in v.socks
  {
    var k := v.socks[a];
    a in v.updates || k.status == PollCancelled || (k.status == PollPending && Covered(k))
  }

  ghost predicate Sound(v: View) {
    && NoDup(v.updates) && NoDup(v.deleted)
    && (forall a :: a in v.updates || a in v.deleted || a in v.polls ==> a in v.socks)
    && (forall s :: s in v.tree ==> v.tree[s] in v.socks && v.socks[v.tree[s]].socket == s
                                    && !v.socks[v.tree[s]].deletePending)
    && (forall a :: a in v.socks ==> SockOk(v, a))
  }

  ghost predicate NoneForgotten(v: View) {
    forall a :: a in v.socks && !v.socks[a].deletePending ==> Interested(v, a)
  }

  ghost predicate Inv(v: View) {
    Sound(v) && NoneForgotten(v)
  }

  // ----- slots of the poll groups

  ghost function Users(socks: map<Addr, Sock>, g: Group): set<Addr> {
    set a | a in socks && socks[a].group == g
  }

  /** Every socket holds one slot of its group, and nobody else holds any. */
  ghost predicate SlotsOk(socks: map<Addr, Sock>, size: map<Group, nat>) {
    && (forall a :: a in socks ==> socks[a].group in size)
    && (forall g :: g in size ==> size[g] == |Users(socks, g)|)
    && PollGroups.Sum(size) == |socks|
  }

  ghost predicate Slots(v: View) {
    PollGroups.Ok(v.groups, v.peak) && SlotsOk(v.socks, v.groups.size)
  }

  // ----- every operation keeps it

  /** Another socket's condition depends on its own entries only. */
  lemma OtherSock(v: View, v': View, a: Addr, b: Addr)
    requires b != a && b in v.socks && b in v'.socks && v'.socks[b] == v.socks[b] && SockOk(v, b)
    requires (b in v'.polls <==> b in v.polls) && (b in v.polls ==> v'.polls[b] == v.polls[b])
    requires (b in v'.deleted <==> b in v.deleted) && (b in v'.updates <==> b in v.updates)
    requires v.socks[b].socket in v.tree && v.tree[v.socks[b].socket] == b ==>
               v.socks[b].socket in v'.tree && v'.tree[v.socks[b].socket] == b
    ensures SockOk(v', b) && (Interested(v', b) <==> Interested(v, b))
  {
  }

  lemma EnqueueKeeps(q: seq<Addr>, a: Addr)
    requires NoDup(q)
    ensures NoDup(Enqueue(q, a)) && forall b :: b in Enqueue(q, a) <==> b in q || b == a
  {
    if a !in q { NoDupAppend(q, a); }
  }

  /** Nothing outside socket `a` changed. */
  ghost predicate OnlyAt(v: View, v': View, a: Addr) {
    forall b :: b != a ==>
      && (b in v'.socks <==> b in v.socks) && (b in v.socks ==> v'.socks[b] == v.socks[b])
      && (b in v'.polls <==> b in v.polls) && (b in v.polls ==> v'.polls[b] == v.polls[b])
      && (b in v'.updates <==> b in v.updates) && (b in v'.deleted <==> b in v.deleted)
  }

  lemma OnlyAtKeeps(v: View, v': View, a: Addr)
    requires Sound(v) && OnlyAt(v, v', a) && NoDup(v'.updates) && NoDup(v'.deleted)
    requires forall b :: b in v.socks && b != a && !v.socks[b].deletePending ==> Interested(v, b)
    requires forall s :: s in v.tree && v.tree[s] != a ==> s in v'.tree && v'.tree[s] == v.tree[s]
    requires forall s :: s in v'.tree ==>
               if v'.tree[s] == a then a in v'.socks && v'.socks[a].socket == s && !v'.socks[a].deletePending
               else s in v.tree && v.tree[s] == v'.tree[s]
    requires a in v'.updates || a in v'.deleted || a in v'.polls ==> a in v'.socks
    requires a in v'.socks ==> SockOk(v', a) && (v'.socks[a].deletePending || Interested(v', a))
    ensures Inv(v')
  {
    assert Sound(v') by {
      forall b | b in v'.socks && b != a ensures SockOk(v', b) {
        assert SockOk(v, b);
        OtherSock(v, v', a, b);
      }
    }
    forall b | b in v'.socks && b != a && !v'.socks[b].deletePending ensures Interested(v', b) {
      assert SockOk(v, b) && Interested(v, b);
      OtherSock(v, v', a, b);
    }
  }

  lemma UnregisterOnlyAt(v: View, a: Addr, cancelOk: bool)
    requires NoDup(v.updates) && a in v.socks
    ensures OnlyAt(v, Unregister(v, a, cancelOk), a)
  {
    WithoutKeeps(v.updates, a);
  }

  lemma ReleaseOnlyAt(v: View, a: Addr, force: bool, cancelOk: bool)
    requires NoDup(v.deleted) && a in v.socks
    ensures OnlyAt(Unregister(v, a, cancelOk), Delete(v, a, force, cancelOk), a)
  {
    WithoutKeeps(v.deleted, a);
    EnqueueKeeps(v.deleted, a);
  }

  lemma DeleteOnlyAt(v: View, a: Addr, force: bool, cancelOk: bool)
    requires Sound(v) && a in v.socks
    ensures var v' := Delete(v, a, force, cancelOk);
            && OnlyAt(v, v', a) && NoDup(v'.updates) && NoDup(v'.deleted)
            && a !in v'.updates && (a in v'.deleted <==> a in v'.socks)
  {
    assert SockOk(v, a);
    WithoutKeeps(v.updates, a);
    WithoutKeeps(v.deleted, a);
    EnqueueKeeps(v.deleted, a);
    UnregisterOnlyAt(v, a, cancelOk);
    ReleaseOnlyAt(v, a, force, cancelOk);
  }

  /** An idle or running socket is deleted without disturbing the others. */
  lemma DeleteKeeps(v: View, a: Addr, cancelOk: bool)
    requires Sound(v) && a in v.socks && !v.socks[a].deletePending
    requires forall b :: b in v.socks && b != a && !v.socks[b].deletePending ==> Interested(v, b)
    ensures Inv(Delete(v, a, false, cancelOk))
  {
    var v' := Delete(v, a, false, cancelOk);
    assert SockOk(v, a);
    DeleteOnlyAt(v, a, false, cancelOk);
    EnqueueKeeps(v.deleted, a);
    OnlyAtKeeps(v, v', a);
  }

  lemma GoneKeeps(v: View, v': View, a: Addr)
    requires Inv(v) && a in v.socks && v.socks[a].deletePending
    requires v'.tree == v.tree && v'.updates == v.updates && v'.deleted == Without(v.deleted, a)
    requires v'.socks == v.socks - {a} && v'.polls == v.polls - {a}
    ensures Inv(v')
  {
    assert SockOk(v, a);
    WithoutKeeps(v.deleted, a);
    GoneOnlyAt(v, v', a);
    OnlyAtKeeps(v, v', a);
  }

  lemma GoneOnlyAt(v: View, v': View, a: Addr)
    requires v'.updates == v.updates && forall b :: b != a ==> (b in v'.deleted <==> b in v.deleted)
    requires v'.socks == v.socks - {a} && v'.polls == v.polls - {a}
    ensures OnlyAt(v, v', a)
  {
  }

  /** The completion of a deleted socket's poll releases it. */
  lemma ReleaseKeeps(v: View, a: Addr)
    requires Inv(v) && a in v.socks && v.socks[a].deletePending
    ensures var v' := Delete(Idle(v, a), a, false, false); Inv(v') && a !in v'.socks
  {
    var v' := Delete(Idle(v, a), a, false, false);
    assert v'.socks == v.socks - {a};
    GoneKeeps(v, v', a);
  }

  lemma SetEventKeeps(v: View, a: Addr, events: Mask, data: nat)
    requires Sound(v) && a in v.socks && !v.socks[a].deletePending
    requires forall b :: b in v.socks && b != a && !v.socks[b].deletePending ==> Interested(v, b)
    ensures Inv(SetEvent(v, a, events, data))
  {
    var v' := SetEvent(v, a, events, data);
    assert SockOk(v, a);
    EnqueueKeeps(v.updates, a);
    AlwaysSomething(events);
    OnlyAtKeeps(v, v', a);
  }

  /** Errors and hang-ups are always asked for, so an idle socket needs a poll. */
  lemma AlwaysSomething(events: Mask)
    ensures !((events + {ERR, HUP}) * KNOWN <= {})
  {
    assert ERR in (events + {ERR, HUP}) * KNOWN;
  }

  lemma AddKeeps(v: View, a: Addr, s: Socket, g: Group, events: Mask, data: nat)
    requires Inv(v) && a !in v.socks && s !in v.tree
    ensures Inv(SetEvent(Register(v, a, s, g), a, events, data))
  {
    var u := Register(v, a, s, g);
    forall b | b in v.socks ensures SockOk(u, b) && (Interested(u, b) <==> Interested(v, b)) {
      assert SockOk(v, b);
      OtherSock(v, u, a, b);
    }
    SetEventKeeps(u, a, events, data);
  }

  lemma UpdateKeeps(v: View, a: Addr, poll: PollAnswer, cancelOk: bool)
    requires Inv(v) && a in v.updates
    ensures !v.socks[a].deletePending
    ensures var r := Update(v, a, poll, cancelOk);
            r.Done? ==> && Inv(r.view) && a !in r.view.updates && |r.view.updates| < |v.updates|
                        && r.view.updates == Without(v.updates, a)
  {
    assert SockOk(v, a);
    WithoutKeeps(v.updates, a);
    var r := Update(v, a, poll, cancelOk);
    if r.Done? {
      if v.socks[a].status == PollIdle && poll == InvalidHandle {
        DeleteKeeps(v, a, cancelOk);
      } else {
        PollKeeps(v, a, poll, cancelOk);
      }
    }
  }

  /** A changed poll state of `a` that leaves it no need to be queued. */
  lemma DequeueKeeps(v: View, a: Addr, k: Sock, polls: map<Addr, Mask>)
    requires Inv(v) && a in v.updates && k.socket == v.socks[a].socket && !k.deletePending
    requires a in polls
    requires forall b :: b != a ==> (b in polls <==> b in v.polls) && (b in polls ==> polls[b] == v.polls[b])
    requires k.status == PollCancelled || (k.status == PollPending && Covered(k) && polls[a] == ToAfd(k.pendingEvents))
    requires k.status == PollCancelled ==> k.pendingEvents == {}
    ensures Inv(v.(socks := v.socks[a := k], polls := polls, updates := Without(v.updates, a)))
  {
    var v' := v.(socks := v.socks[a := k], polls := polls, updates := Without(v.updates, a));
    assert SockOk(v, a);
    WithoutKeeps(v.updates, a);
    assert OnlyAt(v, v', a);
    OnlyAtKeeps(v, v', a);
  }

  lemma PollKeeps(v: View, a: Addr, poll: PollAnswer, cancelOk: bool)
    requires Inv(v) && a in v.updates && Update(v, a, poll, cancelOk).Done?
    requires v.socks[a].status == PollIdle ==> poll == Submitted
    ensures Inv(Update(v, a, poll, cancelOk).view)
  {
    var v' := Update(v, a, poll, cancelOk).view;
    assert SockOk(v, a);
    assert v.socks[a := v.socks[a]] == v.socks;
    DequeueKeeps(v, a, v'.socks[a], v'.polls);
  }

  lemma FeedKeeps(v: View, a: Addr, c: Completion)
    requires Inv(v) && a in v.polls
    ensures a in v.socks && v.socks[a].status != PollIdle
    ensures Inv(Feed(v, a, c))
  {
    assert SockOk(v, a);
    if v.socks[a].deletePending {
      ReleaseKeeps(v, a);
    } else {
      IdleSound(v, a);
      if LocallyClosed(c) {
        DeleteKeeps(Idle(v, a), a, false);
      } else {
        RequeueKeeps(v, a, c);
      }
    }
  }

  lemma RequeueKeeps(v: View, a: Addr, c: Completion)
    requires Inv(v) && a in v.socks && !v.socks[a].deletePending && !LocallyClosed(c)
    ensures Inv(Feed(v, a, c))
  {
    var v' := Feed(v, a, c);
    assert SockOk(v, a);
    EnqueueKeeps(v.updates, a);
    assert v'.socks[a].(userEvents := v.socks[a].userEvents) == IdleSock(v.socks[a]);
    OnlyAtKeeps(v, v', a);
  }

  lemma IdleSound(v: View, a: Addr)
    requires Inv(v) && a in v.socks && !v.socks[a].deletePending
    ensures Sound(Idle(v, a))
    ensures forall b :: b in v.socks && b != a && !v.socks[b].deletePending ==> Interested(Idle(v, a), b)
  {
    var u := Idle(v, a);
    assert SockOk(v, a);
    assert SockOk(u, a);
    forall b | b in v.socks && b != a ensures SockOk(u, b) && (Interested(u, b) <==> Interested(v, b)) {
      assert SockOk(v, b);
      OtherSock(v, u, a, b);
    }
  }

  // ----- what the invariant means

  /** A poll that covers the user's events makes the kernel watch for all they translate to. */
  lemma CoverReachesKernel(user: Mask, pending: Mask)
    requires user * KNOWN <= pending
    ensures ToAfd(user) <= ToAfd(pending)
  {
    assert forall b :: b in KNOWN && b in user ==> b in pending;
    assert IN in KNOWN && PRI in KNOWN && OUT in KNOWN && ERR in KNOWN && HUP in KNOWN && RDNORM in KNOWN;
    assert RDBAND in KNOWN && WRNORM in KNOWN && WRBAND in KNOWN && RDHUP in KNOWN;
  }

  /** Whatever the kernel was asked to watch for is told to a user who still wants it; a local close apart. */
  lemma WatchedIsTold(user: Mask, a: nat)
    requires a in ToAfd(user) && a != AFD_LOCAL_CLOSE
    ensures ToEpoll({a}) * user != {}
  {
    var told := ToEpoll({a});
    assert a == AFD_RECEIVE || a == AFD_ACCEPT || a == AFD_DISCONNECT ==>
             IN in told && RDNORM in told && (a == AFD_DISCONNECT ==> RDHUP in told);
    assert forall e :: e in user && e in told ==> e in told * user;
  }

  /** And every known event but EPOLLMSG is among those some watched condition tells. */
  lemma AskedIsWatched(user: Mask, e: nat)
    requires e in user && e in KNOWN && e != MSG
    ensures exists a :: a in ToAfd(user) && a != AFD_LOCAL_CLOSE && e in ToEpoll({a})
  {
    var a := if e == IN || e == RDNORM then AFD_RECEIVE
             else if e == PRI || e == RDBAND then AFD_RECEIVE_EXPEDITED
             else if e == OUT || e == WRNORM || e == WRBAND then AFD_SEND
             else if e == RDHUP then AFD_DISCONNECT
             else if e == HUP then AFD_ABORT
             else AFD_CONNECT_FAIL;
    assert a in ToAfd(user) && e in ToEpoll({a});
  }

  /** A condition tells the same among others. */
  lemma ToldAmongOthers(conditions: Mask, a: nat)
    requires a in conditions
    ensures ToEpoll({a}) <= ToEpoll(conditions)
  {
    assert forall b :: b in {a} ==> b in conditions;
  }

  /** When something the user asked about comes to pass, all that was asked for and has is told, in one event. */
  lemma EventReachesUser(k: Sock, n: nat, conditions: Mask, a: nat)
    requires !k.deletePending && n >= 1 && AFD_LOCAL_CLOSE !in conditions
    requires a in ToAfd(k.userEvents) && a in conditions
    ensures Told(k, Success(n, conditions)) == [(ToEpoll(conditions) * k.userEvents, k.userData)]
  {
    WatchedIsTold(k.userEvents, a);
    ToldAmongOthers(conditions, a);
  }

  /** A one-shot socket that has reported is watched for a local close only and reports nothing more. */
  lemma OneShotOnce(v: View, a: Addr, c: Completion, later: Completion)
    requires a in v.socks && Told(v.socks[a], c) != [] && ONESHOT in v.socks[a].userEvents
    ensures var v' := Feed(v, a, c);
            && a in v'.socks && ToAfd(v'.socks[a].userEvents) == {AFD_LOCAL_CLOSE}
            && Told(v'.socks[a], later) == []
  {
  }

  /** Once the update queue is empty, every registered socket has its poll, or a cancelled one under way. */
  lemma NothingLost(v: View, s: Socket)
    requires Inv(v) && v.updates == [] && s in v.tree
    ensures var a := v.tree[s];
            && a in v.socks && v.socks[a].socket == s && a in v.polls
            && (v.socks[a].status == PollPending ==> ToAfd(v.socks[a].userEvents) <= v.polls[a])
  {
    var a := v.tree[s];
    assert SockOk(v, a) && Interested(v, a);
    if v.socks[a].status == PollPending {
      CoverReachesKernel(v.socks[a].userEvents, v.socks[a].pendingEvents);
    }
  }

  /** A deleted socket is released at once if no poll is outstanding, else by its completion. */
  lemma ReleasedOnce(v: View, a: Addr, cancelOk: bool, c: Completion)
    requires Inv(v) && a in v.socks && !v.socks[a].deletePending
    ensures var v1 := Delete(v, a, false, cancelOk);
            (a in v1.socks <==> a in v.polls) && (a in v.polls <==> a in v1.polls)
    ensures var v1 := Delete(v, a, false, cancelOk);
            a in v1.socks ==> var v2 := Feed(v1, a, c); a !in v2.socks && a !in v2.polls
  {
    assert SockOk(v, a);
  }

  /** A poll is only ever submitted for a socket that has none outstanding. */
  lemma OnePollEach(v: View, a: Addr, poll: PollAnswer, cancelOk: bool)
    requires Inv(v) && a in v.updates
    ensures var r := Update(v, a, poll, cancelOk);
            r.Done? && r.view.polls != v.polls ==>
              a !in v.polls && r.view.polls == v.polls[a := ToAfd(v.socks[a].userEvents)]
  {
    assert SockOk(v, a);
  }

  // ----- the update loop

  /** port__update_events: the view it leaves behind, and whether it succeeded. */
  ghost function UpdateAll(v: View, answers: nat -> (PollAnswer, bool), i: nat): (View, bool)
    requires Inv(v)
    decreases |v.updates|
  {
    if v.updates == [] then (v, true)
    else
      UpdateKeeps(v, v.updates[0], answers(i).0, answers(i).1);
      match Update(v, v.updates[0], answers(i).0, answers(i).1)
      case Failed => (v, false)
      case Done(v') => UpdateAll(v', answers, i + 1)
  }

  /** After a successful update round, no registered socket is without a poll. */
  lemma {:induction false} UpdateAllKeeps(v: View, answers: nat -> (PollAnswer, bool), i: nat)
    requires Inv(v)
    ensures var (v', ok) := UpdateAll(v, answers, i);
            Inv(v') && (ok ==> v'.updates == [])
    decreases |v.updates|
  {
    if v.updates != [] {
      var a := v.updates[0];
      UpdateKeeps(v, a, answers(i).0, answers(i).1);
      match Update(v, a, answers(i).0, answers(i).1)
      case Failed =>
      case Done(v') => UpdateAllKeeps(v', answers, i + 1);
    }
  }

  /** A completion ends the poll it belongs to and no other. */
  lemma FeedPolls(v: View, a: Addr, c: Completion)
    requires a in v.socks
    ensures Feed(v, a, c).polls == v.polls - {a}
  {
  }

  /** What a completion has the caller of epoll_wait told: nothing, or one event. */
  function Told(k: Sock, c: Completion): seq<(Mask, nat)> {
    if k.deletePending || LocallyClosed(c) || Report(k, c) == {} then [] else [(Report(k, c), k.userData)]
  }

  /** The completions from the i-th on, one after the other, and what they tell. */
  ghost function FeedFrom(v: View, cs: seq<(Addr, Completion)>, i: nat): (View, seq<(Mask, nat)>)
    decreases |cs| - i
  {
    if i >= |cs| || cs[i].0 !in v.socks then (v, [])
    else
      var rest := FeedFrom(Feed(v, cs[i].0, cs[i].1), cs, i + 1);
      (rest.0, Told(v.socks[cs[i].0], cs[i].1) + rest.1)
  }

  // ----- the slots follow the sockets

  lemma SocksAdd(socks: map<Addr, Sock>, a: Addr, k: Sock)
    requires a !in socks
    ensures |socks[a := k]| == |socks| + 1
  {
    assert socks[a := k].Keys == socks.Keys + {a};
    assert |socks.Keys + {a}| == |socks.Keys| + 1;
  }

  lemma UsersSame(socks: map<Addr, Sock>, a: Addr, k: Sock, g: Group)
    requires k.group != g && (a in socks ==> socks[a].group != g)
    ensures Users(socks[a := k], g) == Users(socks, g)
  {
  }

  lemma UsersMore(socks: map<Addr, Sock>, a: Addr, k: Sock)
    requires a !in socks
    ensures |Users(socks[a := k], k.group)| == |Users(socks, k.group)| + 1
  {
    var more, users := Users(socks[a := k], k.group), Users(socks, k.group);
    assert a !in users;
    forall b ensures b in more <==> b in users + {a} {
    }
    assert more == users + {a};
  }

  lemma UsersAdd(socks: map<Addr, Sock>, a: Addr, k: Sock, g: Group)
    requires a !in socks
    ensures |Users(socks[a := k], g)| == |Users(socks, g)| + if k.group == g then 1 else 0
  {
    if k.group == g {
      UsersMore(socks, a, k);
    } else {
      UsersSame(socks, a, k, g);
    }
  }

  lemma SlotsAdd(socks: map<Addr, Sock>, size: map<Group, nat>, a: Addr, k: Sock, size': map<Group, nat>)
    requires SlotsOk(socks, size) && a !in socks
    requires size' == size[k.group := (if k.group in size then size[k.group] else 0) + 1]
    ensures SlotsOk(socks[a := k], size')
  {
    PollGroups.SumUpdate(size, k.group, size'[k.group]);
    SocksAdd(socks, a, k);
    if k.group !in size { assert Users(socks, k.group) == {}; }
    forall g | g in size' ensures size'[g] == |Users(socks[a := k], g)| {
      UsersAdd(socks, a, k, g);
    }
  }

  lemma SlotsRemove(socks: map<Addr, Sock>, size: map<Group, nat>, a: Addr)
    requires SlotsOk(socks, size) && a in socks
    ensures size[socks[a].group] > 0
    ensures SlotsOk(socks - {a}, size[socks[a].group := size[socks[a].group] - 1])
  {
    var k, socks' := socks[a], socks - {a};
    assert socks == socks'[a := k];
    SocksAdd(socks', a, k);
    UsersAdd(socks', a, k, k.group);
    var size' := size[k.group := size[k.group] - 1];
    PollGroups.SumUpdate(size, k.group, size'[k.group]);
    forall g | g in size' ensures size'[g] == |Users(socks', g)| {
      UsersAdd(socks', a, k, g);
    }
  }

  lemma SlotsSame(socks: map<Addr, Sock>, size: map<Group, nat>, a: Addr, k: Sock)
    requires SlotsOk(socks, size) && a in socks && k.group == socks[a].group
    ensures SlotsOk(socks[a := k], size)
  {
    var socks' := socks[a := k];
    assert socks'.Keys == socks.Keys && |socks'| == |socks'.Keys| == |socks.Keys|;
    forall g | g in size ensures size[g] == |Users(socks', g)| {
      assert Users(socks', g) == Users(socks, g);
    }
  }

  lemma DeleteSlots(v: View, a: Addr, force: bool, cancelOk: bool)
    requires Slots(v) && a in v.socks
    ensures Slots(Delete(v, a, force, cancelOk))
  {
    var u, v' := Unregister(v, a, cancelOk), Delete(v, a, force, cancelOk);
    SlotsSame(v.socks, v.groups.size, a, u.socks[a]);
    assert v.socks[a := u.socks[a]] == u.socks;
    FreedSlots(u, v', a);
  }

  /** A socket that goes gives its slot back. */
  lemma FreedSlots(u: View, v': View, a: Addr)
    requires Slots(u) && a in u.socks
    requires v'.peak == u.peak
    requires (v'.groups == u.groups && v'.socks == u.socks) ||
             (v'.groups == PollGroups.Released(u.groups, u.socks[a].group) && v'.socks == u.socks - {a})
    ensures Slots(v')
  {
    SlotsRemove(u.socks, u.groups.size, a);
    PollGroups.ReleaseKeeps(u.groups, u.peak, u.socks[a].group);
  }

  lemma SockChangeSlots(v: View, v': View, a: Addr)
    requires Slots(v) && a in v.socks && a in v'.socks && v'.socks == v.socks[a := v'.socks[a]]
    requires v'.socks[a].group == v.socks[a].group
    requires v'.groups == v.groups && v'.peak == v.peak
    ensures Slots(v')
  {
    SlotsSame(v.socks, v.groups.size, a, v'.socks[a]);
  }

  lemma UpdateSlots(v: View, a: Addr, poll: PollAnswer, cancelOk: bool)
    requires Slots(v) && a in v.socks && Update(v, a, poll, cancelOk).Done?
    ensures Slots(Update(v, a, poll, cancelOk).view)
  {
    var v' := Update(v, a, poll, cancelOk).view;
    if v.socks[a].status == PollIdle && poll == InvalidHandle {
      DeleteSlots(v, a, false, cancelOk);
    } else {
      assert v.socks == v.socks[a := v.socks[a]];
      SockChangeSlots(v, v', a);
    }
  }

  lemma FeedSlots(v: View, a: Addr, c: Completion)
    requires Slots(v) && a in v.socks
    ensures Slots(Feed(v, a, c))
  {
    SockChangeSlots(v, Idle(v, a), a);
    if v.socks[a].deletePending || LocallyClosed(c) {
      DeleteSlots(Idle(v, a), a, false, false);
    } else {
      SockChangeSlots(v, Feed(v, a, c), a);
    }
  }

  lemma SetEventSlots(v: View, a: Addr, events: Mask, data: nat)
    requires Slots(v) && a in v.socks
    ensures Slots(SetEvent(v, a, events, data))
  {
    SockChangeSlots(v, SetEvent(v, a, events, data), a);
  }

  /** The slot of a refused registration goes back. */
  lemma RefusedSlots(v: View, groups: PollGroups.Groups, g: Group)
    requires Slots(v) && groups.size == v.groups.size[g := PollGroups.Size(v.groups, g) + 1]
    requires PollGroups.Ok(groups, TakeSlot(v, groups).peak)
    ensures Slots(TakeSlot(v, groups).(groups := PollGroups.Released(groups, g)))
  {
    PollGroups.ReleaseKeeps(groups, TakeSlot(v, groups).peak, g);
    SlotReturned(v.socks, v.groups.size, g, groups.size, PollGroups.Released(groups, g).size);
  }

  lemma RegisterSlots(v: View, groups: PollGroups.Groups, g: Group, mem: Addr, s: Socket)
    requires Slots(v) && groups.size == v.groups.size[g := PollGroups.Size(v.groups, g) + 1] && mem !in v.socks
    requires PollGroups.Ok(groups, TakeSlot(v, groups).peak)
    ensures Slots(Register(TakeSlot(v, groups), mem, s, g))
  {
    SlotsAdd(v.socks, v.groups.size, mem, Sock(s, g, {}, 0, {}, PollIdle, false), groups.size);
  }

  lemma SlotTaken(v: View, handleOk: bool, groups: PollGroups.Groups, g: Group)
    requires PollGroups.Ok(v.groups, v.peak) && PollGroups.Acquired(v.groups, handleOk) == Some((groups, g))
    ensures groups.size == v.groups.size[g := PollGroups.Size(v.groups, g) + 1]
    ensures PollGroups.Ok(groups, TakeSlot(v, groups).peak)
  {
    PollGroups.AcquireKeeps(v.groups, v.peak, handleOk, groups, g);
  }

  lemma NewSockSlots(v: View, mem: Addr, s: Socket, handleOk: bool)
    requires Slots(v) && mem !in v.socks
    ensures Slots(NewSock(v, mem, s, handleOk).0)
  {
    var r := PollGroups.Acquired(v.groups, handleOk);
    if r.Some? {
      var groups, g := r.value.0, r.value.1;
      SlotTaken(v, handleOk, groups, g);
      if s in v.tree {
        RefusedSlots(v, groups, g);
        assert NewSock(v, mem, s, handleOk).0 == TakeSlot(v, groups).(groups := PollGroups.Released(groups, g));
      } else {
        RegisterSlots(v, groups, g, mem, s);
        assert NewSock(v, mem, s, handleOk).0 == Register(TakeSlot(v, groups), mem, s, g);
      }
    }
  }

  /** A slot taken and given back at once leaves the accounts as they were. */
  lemma SlotReturned(socks: map<Addr, Sock>, size: map<Group, nat>, g: Group, size1: map<Group, nat>,
                     size2: map<Group, nat>)
    requires SlotsOk(socks, size)
    requires size1 == size[g := (if g in size then size[g] else 0) + 1] && size2 == size1[g := size1[g] - 1]
    ensures SlotsOk(socks, size2)
  {
    var n := if g in size then size[g] else 0;
    assert size2 == size[g := n];
    PollGroups.SumUpdate(size, g, n);
    assert g !in size ==> |Users(socks, g)| == 0 by {
      if g !in size { assert Users(socks, g) == {}; }
    }
  }
}
