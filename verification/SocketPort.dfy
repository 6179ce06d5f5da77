/**
 The epoll port: its socket tree, its two queues, its poll groups and the loops
 that drive them. What the kernel answers is a parameter of every operation.
 */
module SocketPort {
  import opened QueueSpec
  import opened SocketSpec
  import opened SocketRuns
  import PollGroups

  /** The whole invariant of a port. */
  ghost predicate Good(v: View) {
    Inv(v) && Slots(v)
  }

  /** What the closing loops need of it. */
  ghost predicate Shut(v: View) {
    Listed(v) && Slots(v)
  }

  /** What the completion of a socket's poll may rely on: its slot, and which queue it can be in. */
  ghost predicate AtWork(v: View, a: Addr)
    requires a in v.socks
  {
    var k := v.socks[a];
    && k.group in v.groups.size && v.groups.size[k.group] > 0 && a !in Without(v.updates, a)
    && (if k.deletePending then a !in v.updates else a !in v.deleted)
  }

  /** What deleting a socket may rely on: its slot, and that it leaves the update queue for good. */
  ghost predicate Removable(v: View, a: Addr)
    requires a in v.socks
  {
    var k := v.socks[a];
    && k.group in v.groups.size && v.groups.size[k.group] > 0
    && (if k.deletePending then a !in v.updates else a !in Without(v.updates, a))
  }

  /** Every slot of every group is taken. */
  ghost predicate NoRoom(v: View) {
    |v.socks| == PollGroups.MAX_GROUP_SIZE * |v.groups.size|
  }

  lemma RoomAtEnd(v: View)
    requires Good(v)
    ensures NoRoom(v) <==> v.groups.open == []
  {
    PollGroups.LastDecides(v.groups.full, v.groups.open, v.groups.size);
  }

  class Port {
    var tree: map<Socket, Addr>
    var socks: map<Addr, Sock>
    var updates: seq<Addr>
    var deleted: seq<Addr>
    const groups: PollGroups.PollGroupQueue
    var activePolls: nat
    var open: bool                  // the IOCP handle
    ghost var polls: map<Addr, Mask>
    ghost var peak: nat

    ghost function Now(): View
      reads `tree, `socks, `updates, `deleted, `polls, `peak, groups
    {
      View(tree, socks, updates, deleted, groups.Now(), polls, peak)
    }

    ghost predicate Valid()
      reads this, groups
    {
      Good(Now()) && groups.Valid()
    }

    constructor ()
      ensures Valid() && open && fresh(groups) && Now() == Fresh && activePolls == 0
    {
      tree, socks, updates, deleted, polls := map[], map[], [], [], map[];
      activePolls, open, peak := 0, true, 0;
      groups := new PollGroups.PollGroupQueue();
      new;
      FreshOk();
    }

    /** A queue_node is in one queue at most: a deleted socket is never queued for an update. */
    method RequestUpdate(a: Addr)
      requires a !in deleted
      modifies `updates
      ensures updates == Enqueue(old(updates), a)
    {
      if a in updates || a in deleted {
        return;
      }
      updates := updates + [a];
    }

    /** Gives back the slot and the memory. */
    method FreeSock(a: Addr)
      requires a in socks && groups.Valid()
      requires socks[a].group in groups.size && groups.size[socks[a].group] > 0
      modifies `socks, groups
      ensures socks == old(socks) - {a} && groups.queue == groups.full + groups.open
      ensures groups.Now() == PollGroups.Released(old(groups.Now()), old(socks)[a].group)
    {
      groups.Release(socks[a].group);
      socks := socks - {a};
    }

    /** The first half of sock__delete. */
    method UnregisterSock(a: Addr, cancelOk: bool)
      requires a in socks
      modifies `tree, `socks, `updates
      ensures Now() == Unregister(old(Now()), a, cancelOk) && a in socks
    {
      if !socks[a].deletePending {
        var k := socks[a];
        if k.status == PollPending && cancelOk {
          k := CancelPoll(k);
        }
        updates := Without(updates, a);
        tree := tree - {k.socket};
        socks := socks[a := k.(deletePending := true)];
      }
    }

    /** sock__delete. */
    method DeleteSock(a: Addr, force: bool, cancelOk: bool)
      requires groups.Valid() && a in socks && Removable(Now(), a)
      modifies `tree, `socks, `updates, `deleted, groups
      ensures Now() == Delete(old(Now()), a, force, cancelOk) && groups.queue == groups.full + groups.open
    {
      UnregisterSock(a, cancelOk);
      if force || socks[a].status == PollIdle {
        deleted := Without(deleted, a);
        FreeSock(a);
      } else if a !in deleted && a !in updates {
        deleted := deleted + [a];
      }
    }

    /** sock_new, from the poll group on: takes a slot and registers, or undoes the first. */
    method AddSock(s: Socket, mem: Addr, handleOk: bool) returns (ok: bool, asked: bool)
      requires groups.Valid() && PollGroups.Ok(groups.Now(), peak)
      modifies `tree, `socks, `peak, groups
      ensures (Now(), ok) == NewSock(old(Now()), mem, s, handleOk)
      ensures groups.queue == groups.full + groups.open && (asked <==> old(groups.open) == [])
    {
      ghost var before := groups.Now();
      var r;
      r, asked := groups.Acquire(handleOk);
      if r.None? {
        return false, asked;
      }
      PollGroups.AcquireKeeps(before, peak, handleOk, groups.Now(), r.value);
      peak := PollGroups.Peak(peak, PollGroups.Sum(groups.size));
      if s in tree {
        groups.Release(r.value);
        return false, asked;
      }
      socks := socks[mem := Sock(s, r.value, {}, 0, {}, PollIdle, false)];
      tree := tree[s := mem];
      return true, asked;
    }

    /** sock_set_event. */
    method SetEvents(a: Addr, events: Mask, data: nat)
      requires a in socks && a !in deleted
      modifies `socks, `updates
      ensures Now() == SetEvent(old(Now()), a, events, data)
    {
      var k := socks[a].(userEvents := events + {ERR, HUP}, userData := data);
      socks := socks[a := k];
      if !Covered(k) {
        RequestUpdate(a);
      }
    }

    /** The first two calls of port__ctl_add. */
    method AddWithEvents(s: Socket, events: Mask, data: nat, mem: Addr, handleOk: bool) returns (ok: bool, asked: bool)
      requires groups.Valid() && PollGroups.Ok(groups.Now(), peak) && mem !in deleted
      modifies `tree, `socks, `updates, `peak, groups
      ensures groups.queue == groups.full + groups.open && (asked <==> old(groups.open) == [])
      ensures ok == NewSock(old(Now()), mem, s, handleOk).1
      ensures !ok ==> Now() == NewSock(old(Now()), mem, s, handleOk).0
      ensures ok ==> mem in NewSock(old(Now()), mem, s, handleOk).0.socks
                     && Now() == SetEvent(NewSock(old(Now()), mem, s, handleOk).0, mem, events, data)
    {
      ok, asked := AddSock(s, mem, handleOk);
      if ok {
        SetEvents(mem, events, data);
      }
    }

    /** sock_update, with the source's assertion that the socket is not being deleted. */
    method UpdateSock(a: Addr, poll: PollAnswer, cancelOk: bool) returns (r: int)
      requires groups.Valid() && a in socks && !socks[a].deletePending && Removable(Now(), a)
      modifies `tree, `socks, `updates, `deleted, `polls, groups
      ensures r == (if Update(old(Now()), a, poll, cancelOk).Failed? then -1 else 0)
      ensures Now() == if r == 0 then Update(old(Now()), a, poll, cancelOk).view else old(Now())
      ensures groups.queue == groups.full + groups.open
    {
      var k := socks[a];
      if k.status == PollPending && Covered(k) {
      } else if k.status == PollPending {
        if !cancelOk {
          return -1;
        }
        socks := socks[a := CancelPoll(k)];
      } else if k.status == PollIdle {
        if poll == InvalidHandle {
          DeleteSock(a, false, cancelOk);
          return 0;
        } else if poll == PollError {
          return -1;
        }
        polls := polls[a := ToAfd(k.userEvents)];
        socks := socks[a := k.(status := PollPending, pendingEvents := k.userEvents)];
      }
      updates := Without(updates, a);
      return 0;
    }

    /** port__update_events; `answers(i)` is what the kernel says to the i-th request. */
    method UpdateEvents(answers: Answers) returns (r: int)
      requires Valid()
      modifies `tree, `socks, `updates, `deleted, `polls, groups
      ensures Valid() && (r == 0 || r == -1)
      ensures (Now(), r == 0) == UpdateAll(old(Now()), answers, 0)
    {
      var i := 0;
      while updates != []
        invariant Valid()
        invariant UpdateAll(Now(), answers, i) == UpdateAll(old(Now()), answers, 0)
        decreases |updates|
      {
        var a := updates[0];
        UpdateReady(Now(), a, answers(i).0, answers(i).1);
        var q := UpdateSock(a, answers(i).0, answers(i).1);
        if q < 0 {
          return -1;
        }
        GroupsTied(Now(), groups);
        i := i + 1;
      }
      return 0;
    }

    method UpdateEventsIfPolling(answers: Answers)
      requires Valid()
      modifies `tree, `socks, `updates, `deleted, `polls, groups
      ensures Valid() && Now() == Refreshed(old(Now()), activePolls, answers)
    {
      if activePolls > 0 {
        var _ := UpdateEvents(answers);
      }
    }

    /** What follows the completion of a registered socket's poll: requeue, filter, report. */
    method ReportSock(a: Addr, c: Completion) returns (events: seq<(Mask, nat)>)
      requires a in socks && a !in deleted && !socks[a].deletePending && !LocallyClosed(c)
      modifies `socks, `updates
      ensures updates == Enqueue(old(updates), a)
      ensures socks == old(socks)[a := AfterReport(old(socks)[a], c)]
      ensures events == Told(old(socks)[a], c)
    {
      RequestUpdate(a);
      var k := socks[a];
      var happened := Happened(c) * k.userEvents;
      if happened == {} {
        return [];
      }
      if ONESHOT in k.userEvents {
        socks := socks[a := k.(userEvents := {})];
      }
      return [(happened, k.userData)];
    }

    /** sock_feed_event. */
    method FeedSock(a: Addr, c: Completion) returns (events: seq<(Mask, nat)>)
      requires groups.Valid() && a in socks && AtWork(Now(), a)
      modifies `tree, `socks, `updates, `deleted, `polls, groups
      ensures Now() == Feed(old(Now()), a, c) && events == Told(old(socks)[a], c)
      ensures groups.queue == groups.full + groups.open
    {
      var k := socks[a];
      socks := socks[a := IdleSock(k)];
      polls := polls - {a};
      if k.deletePending || LocallyClosed(c) {
        DeleteSock(a, false, false);
        return [];
      }
      events := ReportSock(a, c);
    }

    /** sock_feed_event for a poll that was outstanding. */
    method FeedEvent(a: Addr, c: Completion) returns (events: seq<(Mask, nat)>)
      requires Valid() && a in polls
      modifies `tree, `socks, `updates, `deleted, `polls, groups
      ensures Valid() && a in old(socks)
      ensures Now() == Feed(old(Now()), a, c) && events == Told(old(socks)[a], c)
    {
      CompletionReady(Now(), a, c);
      events := FeedSock(a, c);
      GroupsTied(Now(), groups);
    }

    /** port__feed_events: the completions of one wait. */
    method FeedEvents(cs: seq<(Addr, Completion)>) returns (events: seq<(Mask, nat)>)
      requires Valid() && Outstanding(Now(), cs, 0)
      modifies `tree, `socks, `updates, `deleted, `polls, groups
      ensures Valid() && (Now(), events) == FeedFrom(old(Now()), cs, 0)
    {
      events := [];
      FedStart(Now(), cs);
      for i := 0 to |cs|
        invariant Valid() && Outstanding(Now(), cs, i) && Fed(old(Now()), Now(), cs, i, events)
      {
        FedNext(old(Now()), Now(), cs, i, events);
        var told := FeedEvent(cs[i].0, cs[i].1);
        events := events + told;
      }
      FedEnd(old(Now()), Now(), cs, events);
    }

    method AddKept(s: Socket, events: Mask, data: nat, mem: Addr, handleOk: bool, ghost answers: Answers)
      returns (ok: bool, asked: bool)
      requires Valid() && mem !in socks && s != 0 && s != INVALID_SOCKET
      modifies `tree, `socks, `updates, `peak, groups
      ensures Valid() && (asked <==> NoRoom(old(Now()))) && ok == NewSock(old(Now()), mem, s, handleOk).1
      ensures Added(old(Now()), activePolls, Add(s, events, data, mem, true, handleOk, answers)) ==
              if ok then Refreshed(Now(), activePolls, answers) else Now()
    {
      CreatedReady(Now(), activePolls, Add(s, events, data, mem, true, handleOk, answers));
      RoomAtEnd(Now());
      ok, asked := AddWithEvents(s, events, data, mem, handleOk);
      GroupsTied(Now(), groups);
    }

    /**
     EPOLL_CTL_ADD; the sock_state, should one be needed, is put at `mem`. `holds` is the assertion of
     port_get_iocp_handle: a call still under way when the port is closed can break it.
     */
    method CtlAdd(s: Socket, events: Mask, data: nat, mem: Addr,
                  baseOk: bool, handleOk: bool, answers: Answers) returns (r: int, holds: bool)
      requires Valid() && mem !in socks
      modifies `tree, `socks, `updates, `deleted, `polls, `peak, groups
      ensures Valid()
      ensures Now() == Added(old(Now()), activePolls, Add(s, events, data, mem, baseOk, handleOk, answers))
      ensures r == if Created(old(Now()), Add(s, events, data, mem, baseOk, handleOk, answers)).1 then 0 else -1
      ensures !holds <==> !open && s != 0 && s != INVALID_SOCKET && baseOk && NoRoom(old(Now()))
    {
      if s == 0 || s == INVALID_SOCKET || !baseOk {
        return -1, true;
      }
      r, holds := AddChecked(s, events, data, mem, handleOk, answers);
    }

    method AddChecked(s: Socket, events: Mask, data: nat, mem: Addr, handleOk: bool, answers: Answers)
      returns (r: int, holds: bool)
      requires Valid() && mem !in socks && s != 0 && s != INVALID_SOCKET
      modifies `tree, `socks, `updates, `deleted, `polls, `peak, groups
      ensures Valid() && (holds <==> open || !NoRoom(old(Now())))
      ensures r == if NewSock(old(Now()), mem, s, handleOk).1 then 0 else -1
      ensures Now() == Added(old(Now()), activePolls, Add(s, events, data, mem, true, handleOk, answers))
    {
      var ok, asked := AddKept(s, events, data, mem, handleOk, answers);
      holds := open || !asked;
      if !ok {
        return -1, holds;
      }
      UpdateEventsIfPolling(answers);
      return 0, holds;
    }

    /** EPOLL_CTL_MOD. */
    method CtlMod(s: Socket, events: Mask, data: nat, answers: Answers) returns (r: int)
      requires Valid()
      modifies `tree, `socks, `updates, `deleted, `polls, groups
      ensures Valid()
      ensures Now() == Modified(old(Now()), activePolls, Mod(s, events, data, answers))
      ensures r == if s in old(tree) then 0 else -1
    {
      if s !in tree {
        return -1;
      }
      var a := tree[s];
      ModifyReady(Now(), a, events, data);
      SetEvents(a, events, data);
      UpdateEventsIfPolling(answers);
      return 0;
    }

    /** EPOLL_CTL_DEL. */
    method CtlDel(s: Socket, cancelOk: bool) returns (r: int)
      requires Valid()
      modifies `tree, `socks, `updates, `deleted, groups
      ensures Valid()
      ensures Now() == Dropped(old(Now()), s, cancelOk)
      ensures r == if s in old(tree) then 0 else -1
    {
      if s !in tree {
        return -1;
      }
      DeleteKnown(tree[s], cancelOk);
      return 0;
    }

    /** sock_delete. */
    method DeleteKnown(a: Addr, cancelOk: bool)
      requires Valid() && a in socks && !socks[a].deletePending
      modifies `tree, `socks, `updates, `deleted, groups
      ensures Valid() && Now() == Delete(old(Now()), a, false, cancelOk)
    {
      DeletionReady(Now(), a, cancelOk);
      DeleteSock(a, false, cancelOk);
      GroupsTied(Now(), groups);
    }

    /** port__poll, up to the point where it gives up the lock. */
    method BeginWait(answers: Answers) returns (r: int)
      requires Valid()
      modifies `tree, `socks, `updates, `deleted, `polls, `activePolls, groups
      ensures Valid() && (r == 0 || r == -1)
      ensures (Now(), r == 0) == UpdateAll(old(Now()), answers, 0)
      ensures activePolls == old(activePolls) + if r == 0 then 1 else 0
    {
      r := UpdateEvents(answers);
      if r == 0 {
        activePolls := activePolls + 1;
      }
    }

    /** port__poll, from where it has the lock again. */
    method FinishWait(cs: seq<(Addr, Completion)>) returns (events: seq<(Mask, nat)>)
      requires Valid() && activePolls > 0 && Outstanding(Now(), cs, 0)
      modifies `tree, `socks, `updates, `deleted, `polls, `activePolls, groups
      ensures Valid() && (Now(), events) == FeedFrom(old(Now()), cs, 0)
      ensures activePolls == old(activePolls) - 1
    {
      activePolls := activePolls - 1;
      events := FeedEvents(cs);
    }

    /** port_close: from now on no completion can be fetched, but calls under way go on and keep the invariant. */
    method Close()
      requires Valid()
      modifies `open
      ensures !open && Valid() && Now() == old(Now())
    {
      open := false;
    }

    /** sock_force_delete. */
    method ForceDelete(a: Addr, cancelOk: bool)
      requires Shut(Now()) && groups.Valid() && a in socks
      modifies `tree, `socks, `updates, `deleted, groups
      ensures Shut(Now()) && groups.Valid() && groups.size.Keys == old(groups.size.Keys)
      ensures socks == old(socks) - {a}
      ensures if old(socks)[a].deletePending then tree == old(tree) && |deleted| < |old(deleted)|
              else tree == old(tree) - {old(socks)[a].socket} && deleted == old(deleted)
    {
      ForceReady(Now(), a, cancelOk);
      DeleteSock(a, true, cancelOk);
      GroupsTied(Now(), groups);
    }

    /** The first loop of port_delete, over the sockets still registered. */
    method DeleteRegistered(cancelOk: nat -> bool) returns (freed: seq<Addr>)
      requires Shut(Now()) && groups.Valid()
      modifies `tree, `socks, `updates, `deleted, groups
      ensures Shut(Now()) && groups.Valid() && tree == map[]
      ensures groups.size.Keys == old(groups.size.Keys)
      ensures NoDup(freed) && Split(old(socks).Keys, freed, socks.Keys)
    {
      freed := [];
      while tree != map[]
        invariant Shut(Now()) && groups.Valid()
        invariant groups.size.Keys == old(groups.size.Keys)
        invariant NoDup(freed) && Split(old(socks).Keys, freed, socks.Keys)
        decreases |tree|
      {
        var s :| s in tree;
        var a := tree[s];
        SplitNext(old(socks).Keys, freed, socks, a);
        DropSmaller(tree, s);
        ForceDelete(a, cancelOk(|freed|));
        freed := freed + [a];
      }
    }

    /** The second loop of port_delete, over the sockets whose completion never came. */
    method DeleteDying() returns (freed: seq<Addr>)
      requires Shut(Now()) && groups.Valid() && tree == map[]
      modifies `tree, `socks, `updates, `deleted, groups
      ensures Shut(Now()) && groups.Valid() && tree == map[] && deleted == []
      ensures groups.size.Keys == old(groups.size.Keys)
      ensures NoDup(freed) && Split(old(socks).Keys, freed, socks.Keys)
    {
      freed := [];
      while deleted != []
        invariant Shut(Now()) && groups.Valid() && tree == map[]
        invariant groups.size.Keys == old(groups.size.Keys)
        invariant NoDup(freed) && Split(old(socks).Keys, freed, socks.Keys)
        decreases |deleted|
      {
        var a := deleted[0];
        assert a in deleted;
        SplitNext(old(socks).Keys, freed, socks, a);
        ForceDelete(a, false);
        freed := freed + [a];
      }
    }

    /** The third loop of port_delete; each group is empty when its turn comes. */
    method DeleteGroups() returns (freed: seq<Group>)
      requires groups.Valid() && NoDup(groups.queue) && forall g :: g in groups.size ==> groups.size[g] == 0
      modifies groups
      ensures groups.Valid() && groups.queue == [] && freed == old(groups.queue)
    {
      freed := [];
      while groups.queue != []
        invariant groups.Valid() && NoDup(groups.queue) && forall g :: g in groups.size ==> groups.size[g] == 0
        invariant freed + groups.queue == old(groups.queue)
        decreases |groups.queue|
      {
        freed := freed + [groups.queue[0]];
        assert groups.queue[0] in groups.queue;
        groups.DeleteFirst();
      }
    }

    /** port_delete: everything the port owns is freed, once. */
    method DeletePort(cancelOk: nat -> bool) returns (sockets: seq<Addr>, handles: seq<Group>)
      requires !open && Valid()
      modifies `tree, `socks, `updates, `deleted, groups
      ensures tree == map[] && socks == map[] && updates == [] && deleted == [] && groups.queue == []
      ensures NoDup(sockets) && forall a :: a in sockets <==> a in old(socks)
      ensures NoDup(handles) && forall g :: g in handles <==> g in old(groups.size)
    {
      InvListed(Now());
      var first := DeleteRegistered(cancelOk);
      var second := DeleteDying();
      sockets := first + second;
      AllGone(Now());
      SplitTwice(old(socks).Keys, first, second);
      handles := DeleteGroups();
      assert updates == [];
    }
  }

  /** The first registration of a port, overtaken by the closing of the port. */
  method AddAfterClose(s: Socket, handleOk: bool, answers: Answers) returns (holds: bool)
    requires s != 0 && s != INVALID_SOCKET
    ensures !holds
  {
    var port := new Port();
    port.Close();
    var r;
    r, holds := port.CtlAdd(s, {}, 0, 0, true, handleOk, answers);
  }

  /** The addresses of `all` are those already freed and those left. */
  ghost predicate Split(all: set<Addr>, freed: seq<Addr>, left: set<Addr>) {
    (forall a :: a in all <==> a in freed || a in left) && (forall a :: a in freed ==> a !in left)
  }

  lemma SplitNext(all: set<Addr>, freed: seq<Addr>, socks: map<Addr, Sock>, a: Addr)
    requires NoDup(freed) && Split(all, freed, socks.Keys) && a in socks
    ensures NoDup(freed + [a]) && Split(all, freed + [a], (socks - {a}).Keys)
  {
    NoDupAppend(freed, a);
  }

  lemma DropSmaller(m: map<Socket, Addr>, s: Socket)
    requires s in m
    ensures |m - {s}| < |m|
  {
    assert m.Keys == (m - {s}).Keys + {s};
  }

  lemma SplitTwice(all: set<Addr>, first: seq<Addr>, second: seq<Addr>)
    requires NoDup(first) && NoDup(second)
    requires exists rest :: Split(all, first, rest) && Split(rest, second, {})
    ensures NoDup(first + second) && forall a :: a in first + second <==> a in all
  {
    NoDupConcat(first, second);
  }

  lemma AllGone(v: View)
    requires Shut(v) && v.tree == map[] && v.deleted == []
    ensures v.socks == map[] && v.updates == []
    ensures var queue := v.groups.full + v.groups.open;
            NoDup(queue) && forall g :: g in queue <==> g in v.groups.size
    ensures forall g :: g in v.groups.size ==> v.groups.size[g] == 0
  {
    assert forall a :: a in v.socks ==> false;
    EmptyIff(v.updates);
    forall g | g in v.groups.size ensures v.groups.size[g] == 0 {
      assert Users(v.socks, g) == {};
    }
    NoDupConcat(v.groups.full, v.groups.open);
  }

  lemma ForceReady(v: View, a: Addr, cancelOk: bool)
    requires Shut(v) && a in v.socks
    ensures Removable(v, a)
    ensures v.socks[a].deletePending ==> |Delete(v, a, true, cancelOk).deleted| < |v.deleted|
    ensures ForceDeleted(v, Delete(v, a, true, cancelOk), a)
    ensures Delete(v, a, true, cancelOk).groups.size.Keys == v.groups.size.Keys
  {
    SlotHeld(v, a);
    WithoutKeeps(v.updates, a);
    DeleteSlots(v, a, true, cancelOk);
    SameKeys(v, a, cancelOk);
    if v.socks[a].deletePending {
      ForceDeleteDying(v, a, cancelOk);
    } else {
      ForceDeleteRegistered(v, a, cancelOk);
    }
  }

  ghost predicate ForceDeleted(v: View, v': View, a: Addr)
    requires a in v.socks
  {
    && Shut(v') && v'.socks == v.socks - {a}
    && (v.socks[a].deletePending ==> v'.tree == v.tree)
    && (!v.socks[a].deletePending ==> v'.tree == v.tree - {v.socks[a].socket} && v'.deleted == v.deleted)
  }

  lemma ModifyReady(v: View, a: Addr, events: Mask, data: nat)
    requires Good(v) && a in v.socks && !v.socks[a].deletePending
    ensures a !in v.deleted && Good(SetEvent(v, a, events, data))
  {
    SetEventKeeps(v, a, events, data);
    SetEventSlots(v, a, events, data);
    assert SockOk(v, a);
  }

  lemma SameKeys(v: View, a: Addr, cancelOk: bool)
    requires a in v.socks && v.socks[a].group in v.groups.size
    ensures Delete(v, a, true, cancelOk).groups.size.Keys == v.groups.size.Keys
  {
    var g := Unregister(v, a, cancelOk).socks[a].group;
    assert g == v.socks[a].group;
    assert forall h :: h in PollGroups.Released(v.groups, g).size <==> h in v.groups.size;
  }

  lemma CompletionReady(v: View, a: Addr, c: Completion)
    requires Good(v) && a in v.polls
    ensures a in v.socks && AtWork(v, a)
    ensures Good(Feed(v, a, c))
  {
    FeedKeeps(v, a, c);
    FeedSlots(v, a, c);
    SlotHeld(v, a);
    WithoutKeeps(v.updates, a);
    assert SockOk(v, a);
  }

  lemma DeletionReady(v: View, a: Addr, cancelOk: bool)
    requires Good(v) && a in v.socks && !v.socks[a].deletePending
    ensures Removable(v, a)
    ensures Good(Delete(v, a, false, cancelOk))
  {
    DeleteKeeps(v, a, cancelOk);
    DeleteSlots(v, a, false, cancelOk);
    SlotHeld(v, a);
    WithoutKeeps(v.updates, a);
  }

  lemma CreatedReady(v: View, active: nat, op: Op)
    requires Good(v) && op.Add? && op.mem !in v.socks
    ensures op.mem !in v.deleted
    ensures var (v', ok) := Created(v, op);
            if ok then op.mem in v'.socks && var u := SetEvent(v', op.mem, op.events, op.data); Good(u)
            else Good(v')
  {
    CreatedKeeps(v, active, op);
    CreatedSlots(v, op);
    var (v', ok) := Created(v, op);
    if ok { SetEventSlots(v', op.mem, op.events, op.data); }
  }

  // ----- what an operation needs to know about the socket it works on

  /** A live socket holds a slot. */
  lemma SlotHeld(v: View, a: Addr)
    requires (Good(v) || Shut(v)) && a in v.socks
    ensures v.socks[a].group in v.groups.size && v.groups.size[v.socks[a].group] > 0
  {
    SlotsRemove(v.socks, v.groups.size, a);
  }

  /** From `v0` the first i completions have led to `v` and told `events`. */
  ghost predicate Fed(v0: View, v: View, cs: seq<(Addr, Completion)>, i: nat, events: seq<(Mask, nat)>) {
    var (v', told) := FeedFrom(v, cs, i);
    FeedFrom(v0, cs, 0) == (v', events + told)
  }

  lemma FedStart(v: View, cs: seq<(Addr, Completion)>)
    ensures Fed(v, v, cs, 0, [])
  {
    assert [] + FeedFrom(v, cs, 0).1 == FeedFrom(v, cs, 0).1;
  }

  lemma FedNext(v0: View, v: View, cs: seq<(Addr, Completion)>, i: nat, events: seq<(Mask, nat)>)
    requires Good(v) && Outstanding(v, cs, i) && i < |cs| && Fed(v0, v, cs, i, events)
    ensures cs[i].0 in v.polls && cs[i].0 in v.socks
    ensures var v' := Feed(v, cs[i].0, cs[i].1);
            Outstanding(v', cs, i + 1) && Fed(v0, v', cs, i + 1, events + Told(v.socks[cs[i].0], cs[i].1))
  {
    OutstandingNext(v, cs, i);
    FeedFromNext(v, cs, i, events);
  }

  lemma FedEnd(v0: View, v: View, cs: seq<(Addr, Completion)>, events: seq<(Mask, nat)>)
    requires Fed(v0, v, cs, |cs|, events)
    ensures FeedFrom(v0, cs, 0) == (v, events)
  {
    assert events + [] == events;
  }

  lemma FeedFromNext(v: View, cs: seq<(Addr, Completion)>, i: nat, told: seq<(Mask, nat)>)
    requires i < |cs| && cs[i].0 in v.socks
    ensures FeedFrom(v, cs, i).0 == FeedFrom(Feed(v, cs[i].0, cs[i].1), cs, i + 1).0
    ensures told + FeedFrom(v, cs, i).1 ==
            told + Told(v.socks[cs[i].0], cs[i].1) + FeedFrom(Feed(v, cs[i].0, cs[i].1), cs, i + 1).1
  {
  }

  lemma UpdateReady(v: View, a: Addr, poll: PollAnswer, cancelOk: bool)
    requires Good(v) && a in v.updates
    ensures a in v.socks && !v.socks[a].deletePending && Removable(v, a)
    ensures var r := Update(v, a, poll, cancelOk);
            r.Done? ==> Good(r.view) && |r.view.updates| < |v.updates|
  {
    UpdateKeeps(v, a, poll, cancelOk);
    SlotHeld(v, a);
    WithoutKeeps(v.updates, a);
    if Update(v, a, poll, cancelOk).Done? { UpdateSlots(v, a, poll, cancelOk); }
  }

  /** Consistent groups tie the linked queue to its two parts. */
  lemma GroupsTied(v: View, q: PollGroups.PollGroupQueue)
    requires (Good(v) || Shut(v)) && v.groups == q.Now() && q.queue == q.full + q.open
    ensures q.Valid()
  {
  }
}
