/**
 Channel timers: one per channel at most, kept in a skip list by deadline, and
 drained after each poll through a cursor that survives the caller's changes.
 */
module Timers {
  import opened MnetData
  import opened QueueSpec
  import opened SkipLists
  import opened TimerSpec

  class Clock {
    const list: SkipList
    var tmPos: SkipNode?
    var tmCurrent: int
    ghost var channels: set<Channel>
    ghost var timers: set<Timer>

    /** A node of the list and the channel it belongs to point at each other. */
    ghost predicate Mutual(x: SkipNode)
      reads `channels, `timers, channels`timerNode, timers
    {
      && x.value != null && x.value in timers && x.value.chann in channels
      && x.value.time == x.key && x.value.interval > 0 && x.value.chann.timerNode == x
    }

    /** Timers in the list and channels with a timer correspond one to one. */
    ghost predicate Paired()
      reads this, list, channels`timerNode, timers
    {
      && (forall x :: x in list.items ==> Mutual(x))
      && (forall n :: n in channels && n.timerNode != null ==>
            n.timerNode in list.items && n.timerNode.value.chann == n)
    }

    ghost predicate Valid()
      reads this, list, list.head, list.nodes, channels`timerNode, timers
    {
      list.Valid() && Paired()
    }

    /** The timers as values. */
    ghost function Table(): Deadlines
      reads `channels, `timers, channels`timerNode, timers
    {
      map n | n in channels && n.timerNode != null && n.timerNode.value != null && n.timerNode.value in timers ::
        Entry(n.timerNode.key, n.timerNode.value.interval)
    }

    constructor (ghost channels: set<Channel>)
      requires forall n :: n in channels ==> n.timerNode == null
      ensures Valid() && this.channels == channels && tmPos == null && tmCurrent == 0
      ensures fresh(list) && fresh(list.head) && list.items == [] && list.nodes == {} && timers == {}
    {
      list := new SkipList();
      tmPos, tmCurrent, this.channels, timers := null, 0, channels, {};
    }

    /** Every channel but `n` and its timer correspond; no timer in the list is n's. */
    ghost predicate PairedBut(n: Channel)
      reads this, list, channels`timerNode, timers
    {
      && (forall x :: x in list.items ==> Mutual(x) && x.value.chann != n)
      && (forall m :: m in channels && m != n && m.timerNode != null ==>
            m.timerNode in list.items && m.timerNode.value.chann == m)
    }

    /** Takes n's node out of the list. */
    method TakeOut(n: Channel)
      requires Valid() && n in channels && n.timerNode != null
      modifies list, list.head, list.nodes
      ensures list.Valid() && PairedBut(n)
      ensures list.items == Minus(old(list.items), n.timerNode) && list.nodes == old(list.nodes)
      ensures Table() == old(Table())
    {
      var node: SkipNode := n.timerNode;
      WithoutKeeps(list.items, node);
      list.Remove(node);
      forall x | x in list.items ensures Mutual(x) && x.value.chann != n {
        assert x in old(list.items) && x != node;
        assert old(Mutual(x));
      }
      forall m | m in channels && m != n && m.timerNode != null
        ensures m.timerNode in list.items && m.timerNode.value.chann == m
      {
        assert m.timerNode != node;
      }
    }

    /** Puts a node for n's timer into the list. */
    method PutIn(n: Channel, tm: Timer, height: nat)
      requires list.Valid() && PairedBut(n) && n in channels && 1 <= height <= MAX_LEVEL
      requires tm in timers && tm.chann == n && tm.interval > 0
      modifies list, list.head, list.nodes, n`timerNode
      ensures Valid() && n.timerNode != null && fresh(n.timerNode) && n.timerNode.key == tm.time
      ensures list.items == Inserted(old(list.items), n.timerNode) && n.timerNode.value == tm
      ensures forall x :: x in list.nodes ==> fresh(x) || x in old(list.nodes)
    {
      var node := list.Insert(tm.time, tm, height);
      InsertedMember(old(list.items), node);
      n.timerNode := node;
      forall x | x in list.items ensures Mutual(x) {
        if x != node { assert old(Mutual(x)); }
      }
    }

    /** The same, as seen in the table. */
    method Install(n: Channel, tm: Timer, height: nat)
      requires list.Valid() && PairedBut(n) && n in channels && 1 <= height <= MAX_LEVEL
      requires tm in timers && tm.chann == n && tm.interval > 0
      modifies list, list.head, list.nodes, n`timerNode
      ensures Valid() && n.timerNode != null && fresh(n.timerNode) && n.timerNode.key == tm.time
      ensures list.items == Inserted(old(list.items), n.timerNode)
      ensures Sets(old(Table()), Table(), n, Entry(tm.time, tm.interval))
      ensures forall x :: x in list.nodes ==> fresh(x) || x in old(list.nodes)
    {
      PutIn(n, tm, height);
      ghost var a, b := old(Table()), Table();
      forall m | m in channels && m != n ensures Agree(a, b, m) {
        assert m.timerNode == old(m.timerNode);
      }
    }

    /** Writes a new deadline into n's timer while no node of it is in the list. */
    method Retime(n: Channel, tm: Timer, interval: int, now: int)
      requires list.Valid() && PairedBut(n) && n in channels && tm in timers && tm.chann == n
      modifies tm
      ensures list.Valid() && PairedBut(n) && tm.interval == interval && tm.time == now + interval
      ensures AgreeBut(old(Table()), Table(), n)
    {
      tm.interval := interval;
      tm.time := now + interval;
    }

    /** A first timer for n. */
    method NewTimer(n: Channel, interval: int, now: int) returns (tm: Timer)
      requires Valid() && n in channels && n.timerNode == null
      modifies `timers
      ensures list.Valid() && PairedBut(n) && fresh(tm) && timers == old(timers) + {tm}
      ensures tm.chann == n && tm.interval == interval && tm.time == now + interval
      ensures AgreeBut(old(Table()), Table(), n)
    {
      tm := new Timer(n, interval, now + interval);
      timers := timers + {tm};
    }

    /** _tm_active. */
    method Activate(n: Channel, interval: int, now: int, height: nat)
      requires Valid() && n in channels && n.timerNode == null && interval > 0 && 1 <= height <= MAX_LEVEL
      modifies `timers, list, list.head, list.nodes, n`timerNode
      ensures Valid() && n.timerNode != null && fresh(n.timerNode) && n.timerNode.key == now + interval
      ensures list.items == Inserted(old(list.items), n.timerNode)
      ensures (forall t :: t in timers ==> fresh(t) || t in old(timers)) &&
              Sets(old(Table()), Table(), n, Entry(now + interval, interval))
      ensures forall x :: x in list.nodes ==> fresh(x) || x in old(list.nodes)
    {
      var tm := NewTimer(n, interval, now);
      ghost var between := Table();
      Install(n, tm, height);
      SetsAfter(old(Table()), between, Table(), n, Entry(now + interval, interval));
    }

    /** _tm_update. */
    method Update(n: Channel, interval: int, now: int, height: nat)
      requires Valid() && n in channels && n.timerNode != null && interval > 0 && 1 <= height <= MAX_LEVEL
      modifies timers, list, list.head, list.nodes, n`timerNode
      ensures Valid() && n.timerNode != null && fresh(n.timerNode) && n.timerNode.key == now + interval
      ensures list.items == Inserted(Minus(old(list.items), old(n.timerNode)), n.timerNode)
      ensures Sets(old(Table()), Table(), n, Entry(now + interval, interval))
      ensures forall x :: x in list.nodes ==> fresh(x) || x in old(list.nodes)
    {
      var tm := n.timerNode.value;
      TakeOut(n);
      Retime(n, tm, interval, now);
      ghost var between := Table();
      Install(n, tm, height);
      SetsAfter(old(Table()), between, Table(), n, Entry(now + interval, interval));
    }

    /** _tm_kill. */
    method Kill(n: Channel)
      requires Valid() && n in channels
      modifies list, list.head, list.nodes, n`timerNode
      ensures Valid() && n.timerNode == null
      ensures list.items == Minus(old(list.items), old(n.timerNode)) && Drops(old(Table()), Table(), n)
      ensures list.nodes == old(list.nodes)
    {
      if n.timerNode != null {
        TakeOut(n);
        n.timerNode := null;
        ghost var a, b := old(Table()), Table();
        forall m | m in channels && m != n ensures Agree(a, b, m) {
          assert m.timerNode == old(m.timerNode);
        }
      }
    }

    /** A new channel has no timer. */
    method Enrol(n: Channel)
      requires Valid() && n !in channels && n.timerNode == null
      modifies `channels
      ensures Valid() && channels == old(channels) + {n} && Table() == old(Table())
    {
      ghost var t := Table();
      channels := channels + {n};
      assert Table() == t;
    }

    /** A channel that goes takes its timer along. */
    method Dismiss(n: Channel)
      requires Valid() && n in channels
      modifies `channels, list, list.head, list.nodes, n`timerNode
      ensures Valid() && channels == old(channels) - {n} && n.timerNode == null && Table() == old(Table()) - {n}
      ensures list.items == Minus(old(list.items), old(n.timerNode))
      ensures list.nodes == old(list.nodes)
    {
      Kill(n);
      DropsIs(old(Table()), Table(), n);
      ghost var t := Table();
      channels := channels - {n};
      assert Table() == t;
    }

    ghost function DueNow(): seq<SkipNode>
      reads `tmCurrent, list`items
    {
      Due(list.items, tmCurrent)
    }

    /** The cursor stands at the first due timer; when none is due, it is harmless. */
    ghost predicate Ready()
      reads `tmPos, `tmCurrent, list`items
    {
      if DueNow() != [] then tmPos == list.items[0]
      else tmPos == null || tmPos == list.head || tmPos in list.items
    }

    /** No drain is under way: the cursor points nowhere. */
    ghost predicate AtRest()
      reads `tmPos
    {
      tmPos == null || tmPos == list.head
    }

    /** _tm_schedule. */
    method Schedule(now: int)
      requires Valid() && now >= tmCurrent
      modifies `tmPos, `tmCurrent
      ensures Valid() && Ready() && DueNow() == Due(list.items, now) && (DueNow() == [] ==> tmPos == null)
      ensures tmCurrent == (if DueNow() != [] then now else old(tmCurrent)) && Table() == old(Table())
    {
      if list.count <= 0 {
        tmPos := null;
        return;
      }
      NextAt(list.head, list.items, 0);
      var pos := list.head.next[0];
      assert Mutual(list.items[0]);
      var tm := pos.value;
      if tm.time > now {
        tmPos := null;
      } else {
        tmCurrent := now;
        tmPos := pos;
      }
    }

    /** A due timer is handled: the cursor moves on, then the timer is re-armed by its own interval. */
    method Fire(pos: SkipNode, now: int, height: nat) returns (n: Channel)
      requires Valid() && Ready() && DueNow() != [] && pos == tmPos && now >= tmCurrent && 1 <= height <= MAX_LEVEL
      modifies `tmPos, timers, list, list.head, list.nodes, channels`timerNode
      ensures Valid() && Ready() && DueNow() == old(DueNow())[1..] && tmCurrent == old(tmCurrent)
      ensures OwnedBy(old(DueNow())[0], n) && tmPos != null && n.timerNode != tmPos
      ensures n in old(Table()) && old(Table())[n].time <= tmCurrent && old(Table())[n].span > 0
      ensures Sets(old(Table()), Table(), n, Again(old(Table())[n], now))
      ensures forall x :: x in list.nodes ==> fresh(x) || x in old(list.nodes)
    {
      MoveOn(pos);
      n := Rearm(pos, now, height);
      FireFacts(old(list.items), n.timerNode, tmCurrent);
    }

    /** The cursor goes from the first node to the next. */
    method MoveOn(pos: SkipNode)
      requires Valid() && list.items != [] && pos == list.items[0]
      modifies `tmPos
      ensures Valid() && tmPos == (if |list.items| > 1 then list.items[1] else list.head) && Table() == old(Table())
    {
      NextAt(list.head, list.items, 0);
      tmPos := pos.next[0];
    }

    /** A timer in the list starts again. */
    method Rearm(pos: SkipNode, now: int, height: nat) returns (n: Channel)
      requires Valid() && pos in list.items && 1 <= height <= MAX_LEVEL
      modifies timers, list, list.head, list.nodes, channels`timerNode
      ensures Valid() && OwnedBy(pos, n) && n.timerNode != null && fresh(n.timerNode)
      ensures list.items == Inserted(Without(old(list.items), pos), n.timerNode)
      ensures n in old(Table()) && old(Table())[n].time == pos.key && old(Table())[n].span > 0
      ensures n.timerNode.key == now + old(Table())[n].span
      ensures Sets(old(Table()), Table(), n, Again(old(Table())[n], now))
      ensures forall x :: x in list.nodes ==> fresh(x) || x in old(list.nodes)
    {
      assert Mutual(pos);
      var tm := pos.value;
      n := tm.chann;
      Update(n, tm.interval, now, height);
    }

    /** What the cursor points at, if that is due; otherwise the drain is over. */
    method Look() returns (pos: SkipNode?)
      requires Valid() && Ready()
      modifies `tmPos
      ensures Valid() && Ready()
      ensures pos != null <==> DueNow() != []
      ensures pos != null ==> pos == tmPos == list.items[0]
      ensures Table() == old(Table()) && DueNow() == old(DueNow()) && (pos == null ==> AtRest())
    {
      pos := tmPos;
      if pos == null || pos == list.head {
        return null;
      }
      DueExactly(list.items, tmCurrent, pos);
      assert Mutual(pos);
      if pos.value.time > tmCurrent {
        tmPos := null;
        return null;
      }
    }

    /** One turn of _tm_next: the first due timer, if there is one. */
    method FireNext(now: int, height: nat) returns (n: Channel?, ghost pos: SkipNode)
      requires Valid() && Ready() && now >= tmCurrent && 1 <= height <= MAX_LEVEL
      modifies `tmPos, timers, list, list.head, list.nodes, channels`timerNode
      ensures Valid() && Ready() && tmCurrent == old(tmCurrent)
      ensures n == null ==> old(DueNow()) == [] == DueNow() && Table() == old(Table()) && AtRest()
      ensures n != null ==> old(DueNow()) == [pos] + DueNow() && OwnedBy(pos, n) && n.timerNode != tmPos
      ensures n != null ==> n in old(Table()) && old(Table())[n].time <= tmCurrent && old(Table())[n].span > 0
                            && Sets(old(Table()), Table(), n, Again(old(Table())[n], now))
      ensures forall x :: x in list.nodes ==> fresh(x) || x in old(list.nodes)
    {
      var first := Look();
      if first == null {
        return null, list.head;
      }
      pos := first;
      n := Fire(first, now, height);
    }

    /**
     _tm_next: handles due timers until one gets past the filter. `handled` are the channels whose event
     was put to the filter; each is re-armed, whether its event passes or not. The j-th timer handled in
     the drain, counting from `from`, finds the clock, the random source and the filter as now(j),
     heights(j) and passes(j) say.
     */
    method Next(now: nat -> int, heights: nat -> nat, passes: nat -> bool, from: nat)
      returns (msg: Channel?, handled: seq<Channel>, ghost fired: seq<SkipNode>)
      requires Valid() && Ready() && forall i :: now(i) >= tmCurrent && 1 <= heights(i) <= MAX_LEVEL
      modifies `tmPos, timers, list, list.head, list.nodes, channels`timerNode
      ensures Valid() && Ready() && tmCurrent == old(tmCurrent)
      ensures Recorded(Log(old(Table()), old(DueNow()), handled, fired), Table(), DueNow(), now, from, tmCurrent)
      ensures Filtered(handled, msg, passes, from)
      ensures if msg == null then DueNow() == [] && AtRest() else msg.timerNode != tmPos
      ensures forall x :: x in list.nodes ==> fresh(x) || x in old(list.nodes)
    {
      ghost var log := Log(Table(), DueNow(), [], []);
      RecordedStart(Table(), DueNow(), now, from, tmCurrent);
      handled := [];
      while true
        invariant Valid() && Ready() && log == Log(old(Table()), old(DueNow()), handled, log.fired)
        invariant Recorded(log, Table(), DueNow(), now, from, tmCurrent) && Filtered(handled, null, passes, from)
        invariant forall x :: x in list.nodes ==> fresh(x) || x in old(list.nodes)
        decreases |DueNow()|
      {
        var i := from + |handled|;
        msg, log := HandleNext(now, heights, from, i, log);
        if msg == null {
          return null, handled, log.fired;
        }
        FilteredNext(handled, msg, passes, from);
        handled := handled + [msg];
        if passes(i) {
          return msg, handled, log.fired;
        }
      }
    }

    /** FireNext, the i-th of a drain, added to the log. */
    method HandleNext(now: nat -> int, heights: nat -> nat, ghost from: nat, i: nat, ghost log: Log)
      returns (n: Channel?, ghost log': Log)
      requires Valid() && Ready() && forall i :: now(i) >= tmCurrent && 1 <= heights(i) <= MAX_LEVEL
      requires Recorded(log, Table(), DueNow(), now, from, tmCurrent) && i == from + |log.handled|
      modifies `tmPos, timers, list, list.head, list.nodes, channels`timerNode
      ensures Valid() && Ready() && tmCurrent == old(tmCurrent)
      ensures Recorded(log', Table(), DueNow(), now, from, tmCurrent)
      ensures n == null ==> DueNow() == [] && log' == log && AtRest()
      ensures n != null ==> |DueNow()| < |old(DueNow())| && n.timerNode != tmPos
                            && log' == log.(handled := log.handled + [n], fired := log'.fired)
      ensures forall x :: x in list.nodes ==> fresh(x) || x in old(list.nodes)
    {
      ghost var pos;
      n, pos := FireNext(now(i), heights(i));
      log' := log;
      if n != null {
        RecordedNext(log, old(Table()), old(DueNow()), Table(), n, pos, DueNow(), now, from, tmCurrent);
        log' := Logged(log, n, pos);
      }
    }

    /**
     mnet_chann_active_event for timers, while a drain may be under way. The drain survives exactly if the
     node that the cursor points at is not the one taken out; a due timer changed this way is just due no more.
     */
    method SetTimer(n: Channel, value: int, now: int, height: nat)
      requires Valid() && Ready() && n in channels && now >= tmCurrent && 1 <= height <= MAX_LEVEL
      modifies `timers, timers, list, list.head, list.nodes, n`timerNode
      ensures Valid()
      ensures Ready() <==> n.state == Closed || old(n.timerNode) == null || old(n.timerNode) != tmPos
      ensures DueNow() == if n.state == Closed then old(DueNow()) else Minus(old(DueNow()), old(n.timerNode))
      ensures n.state == Closed ==> Table() == old(Table())
      ensures n.state != Closed && value > 0 ==> Sets(old(Table()), Table(), n, Entry(now + value * 1000, value * 1000))
      ensures n.state != Closed && value <= 0 ==> Drops(old(Table()), Table(), n)
      ensures n.state != Closed && n.timerNode != null ==> fresh(n.timerNode)
      ensures n.state == Closed ==> n.timerNode == old(n.timerNode)
      ensures forall x :: x in list.nodes ==> fresh(x) || x in old(list.nodes)
      ensures forall t :: t in timers ==> fresh(t) || t in old(timers)
    {
      if n.state != Closed {
        if value > 0 {
          StartTimer(n, value * 1000, now, height);
        } else if n.timerNode != null {
          RemoveKeepsDue(list.items, n.timerNode, tmCurrent);
          CursorGone(list.items, n.timerNode, tmCurrent);
          Kill(n);
        }
      }
    }

    /** A new deadline for n, whether it had a timer or not. */
    method StartTimer(n: Channel, interval: int, now: int, height: nat)
      requires Valid() && Ready() && n in channels && now >= tmCurrent && interval > 0 && 1 <= height <= MAX_LEVEL
      modifies `timers, timers, list, list.head, list.nodes, n`timerNode
      ensures Valid()
      ensures Ready() <==> old(n.timerNode) == null || old(n.timerNode) != tmPos
      ensures DueNow() == Minus(old(DueNow()), old(n.timerNode))
      ensures Sets(old(Table()), Table(), n, Entry(now + interval, interval))
      ensures n.timerNode != null && fresh(n.timerNode)
      ensures forall x :: x in list.nodes ==> fresh(x) || x in old(list.nodes)
      ensures forall t :: t in timers ==> fresh(t) || t in old(timers)
    {
      RemoveKeepsDue(list.items, n.timerNode, tmCurrent);
      CursorGone(list.items, n.timerNode, tmCurrent);
      if n.timerNode != null {
        Update(n, interval, now, height);
      } else {
        Activate(n, interval, now, height);
      }
      InsertKeepsDue(Minus(old(list.items), old(n.timerNode)), n.timerNode, tmCurrent);
    }

    /** The channel's timer is none of the drain's business: it is neither due nor under the cursor. */
    ghost predicate Loose(n: Channel)
      reads `tmCurrent, `tmPos, n`timerNode
    {
      n.timerNode != null ==> n.timerNode.key > tmCurrent && n.timerNode != tmPos
    }

    /** One change by the caller, to a timer that is none of the drain's business. */
    method ApplyMove(msg: Channel, m: Move)
      requires Valid() && Ready() && msg in channels && Loose(msg)
      requires m.chann in channels && m.now >= tmCurrent && 1 <= m.height <= MAX_LEVEL
      requires m.chann == msg || m.chann.timerNode == null
      modifies `timers, timers, list, list.head, list.nodes, channels`timerNode
      ensures Valid() && Ready() && DueNow() == old(DueNow()) && Loose(msg)
      ensures AgreeBut(old(Table()), Table(), m.chann)
      ensures m.chann in old(Table()) && m.value > 0 ==> m.chann in Table()
      ensures forall x :: x in list.nodes ==> fresh(x) || x in old(list.nodes)
      ensures forall t :: t in timers ==> fresh(t) || t in old(timers)
    {
      NotDue(list.items, m.chann.timerNode, tmCurrent);
      SetTimer(m.chann, m.value, m.now, m.height);
    }

    /**
     The caller's changes after a message, of which only those to the fired channel's timer and to channels
     without one are made; the others are passed over, as they might lose the cursor (SetTimer says when).
     */
    method Apply(msg: Channel, moves: seq<Move>)
      requires Valid() && Ready() && msg in channels && Loose(msg)
      requires forall m :: m in moves ==> m.chann in channels && m.now >= tmCurrent && 1 <= m.height <= MAX_LEVEL
      modifies `timers, timers, list, list.head, list.nodes, channels`timerNode
      ensures Valid() && Ready() && DueNow() == old(DueNow())
      ensures Moved(old(Table()), Table(), moves)
      ensures forall x :: x in list.nodes ==> fresh(x) || x in old(list.nodes)
      ensures forall t :: t in timers ==> fresh(t) || t in old(timers)
    {
      ghost var made: seq<Move> := [];
      for i := 0 to |moves|
        invariant Valid() && Ready() && DueNow() == old(DueNow()) && Loose(msg)
        invariant made == moves[..i] && Moved(old(Table()), Table(), made)
        invariant forall x :: x in list.nodes ==> fresh(x) || x in old(list.nodes)
        invariant forall t :: t in timers ==> fresh(t) || t in old(timers)
      {
        var m := moves[i];
        assert m in moves;
        ghost var before := Table();
        if m.chann == msg || m.chann.timerNode == null {
          ApplyMove(msg, m);
        }
        MovedNext(old(Table()), before, Table(), made, m);
        made := made + [m];
      }
      assert made == moves;
    }

    /** One message and the caller's reaction to it; `between` are the timers as the caller found them. */
    method Round(now: nat -> int, heights: nat -> nat, passes: nat -> bool, from: nat, moves: seq<Move>)
      returns (msg: Channel?, handled: seq<Channel>, ghost fired: seq<SkipNode>, ghost between: Deadlines)
      requires Valid() && Ready() && forall i :: now(i) >= tmCurrent && 1 <= heights(i) <= MAX_LEVEL
      requires forall m :: m in moves ==> m.chann in channels && m.now >= tmCurrent && 1 <= m.height <= MAX_LEVEL
      modifies `tmPos, `timers, timers, list, list.head, list.nodes, channels`timerNode
      ensures Valid() && Ready() && tmCurrent == old(tmCurrent)
      ensures Recorded(Log(old(Table()), old(DueNow()), handled, fired), between, DueNow(), now, from, tmCurrent)
      ensures Moved(between, Table(), moves) && Filtered(handled, msg, passes, from)
      ensures msg == null ==> DueNow() == [] && AtRest()
      ensures forall x :: x in list.nodes ==> fresh(x) || x in old(list.nodes)
      ensures forall t :: t in timers ==> fresh(t) || t in old(timers)
    {
      msg, handled, fired := Next(now, heights, passes, from);
      between := Table();
      if msg == null {
        MovedNone(between, moves);
      } else {
        assert handled[|handled| - 1] in Table();
        Apply(msg, moves);
      }
    }

    /**
     A whole drain: _tm_schedule, then the messages one by one, the caller changing timers in between.
     The channels handled are the owners of the timers due at the start, in their order; the messages are
     those among them whose event passes the filter. A channel handled that the caller leaves alone ends
     re-armed once, at the reading of its turn; one not due that the caller leaves alone ends as it was; and
     no channel loses its timer but by the caller. Afterwards no timer is due.
     */
    method Drain(now: int, later: nat -> int, heights: nat -> nat, passes: nat -> bool, moves: nat -> seq<Move>)
      returns (messages: seq<Channel>, handled: seq<Channel>)
      requires Valid() && now >= tmCurrent
      requires forall i :: later(i) >= now && 1 <= heights(i) <= MAX_LEVEL
      requires forall i, m :: m in moves(i) ==> m.chann in channels && m.now >= now && 1 <= m.height <= MAX_LEVEL
      modifies `tmPos, `tmCurrent, `timers, timers, list, list.head, list.nodes, channels`timerNode
      ensures Valid() && AtRest() && DueNow() == [] && OwnedAll(Due(old(list.items), now), handled) && NoDup(handled)
      ensures messages == Passed(handled, passes, 0)
      ensures Tracked(old(Table()), Table(), handled, later, moves)
      ensures handled != [] ==> tmCurrent == now
      ensures old(tmCurrent) <= tmCurrent <= now
      ensures forall k :: 0 <= k < |list.items| ==> list.items[k].key > tmCurrent
    {
      Schedule(now);
      messages, handled := DrainDue(later, heights, passes, moves);
    }

    /** The messages of a drain, and what is left behind. */
    method DrainDue(now: nat -> int, heights: nat -> nat, passes: nat -> bool, moves: nat -> seq<Move>)
      returns (messages: seq<Channel>, handled: seq<Channel>)
      requires Valid() && Ready() && forall i :: now(i) >= tmCurrent && 1 <= heights(i) <= MAX_LEVEL
      requires forall i, m :: m in moves(i) ==> m.chann in channels && m.now >= tmCurrent && 1 <= m.height <= MAX_LEVEL
      modifies `tmPos, `timers, timers, list, list.head, list.nodes, channels`timerNode
      ensures Valid() && AtRest() && DueNow() == [] && tmCurrent == old(tmCurrent)
      ensures OwnedAll(old(DueNow()), handled) && NoDup(handled)
      ensures forall x :: x in list.nodes ==> fresh(x) || x in old(list.nodes)
      ensures forall t :: t in timers ==> fresh(t) || t in old(timers)
      ensures messages == Passed(handled, passes, 0)
      ensures Tracked(old(Table()), Table(), handled, now, moves)
      ensures forall k :: 0 <= k < |list.items| ==> list.items[k].key > tmCurrent
    {
      ghost var owners, log;
      messages, handled, log, owners := DrainLogged(now, heights, passes, moves);
      SoFarEnd(log, messages, owners, Table(), now, passes, moves);
      NoneDue(list.items, tmCurrent);
    }

    /** Before the first round. */
    lemma Starting(now: nat -> int, passes: nat -> bool, moves: nat -> seq<Move>) returns (owners: seq<Channel>)
      requires Valid()
      ensures SoFar(Log(Table(), DueNow(), [], []), [], owners, Table(), DueNow(), now, passes, moves)
    {
      owners := Owners();
      SoFarStart(Table(), DueNow(), owners, now, passes, moves);
    }

    /** The same, with the log it leaves. */
    method DrainLogged(now: nat -> int, heights: nat -> nat, passes: nat -> bool, moves: nat -> seq<Move>)
      returns (messages: seq<Channel>, handled: seq<Channel>, ghost log: Log, ghost owners: seq<Channel>)
      requires Valid() && Ready() && forall i :: now(i) >= tmCurrent && 1 <= heights(i) <= MAX_LEVEL
      requires forall i, m :: m in moves(i) ==> m.chann in channels && m.now >= tmCurrent && 1 <= m.height <= MAX_LEVEL
      modifies `tmPos, `timers, timers, list, list.head, list.nodes, channels`timerNode
      ensures Valid() && AtRest() && DueNow() == [] && tmCurrent == old(tmCurrent)
      ensures forall x :: x in list.nodes ==> fresh(x) || x in old(list.nodes)
      ensures forall t :: t in timers ==> fresh(t) || t in old(timers)
      ensures SoFar(log, messages, owners, Table(), [], now, passes, moves) && log.handled == handled
      ensures log.table == old(Table()) && log.due == old(DueNow())
    {
      owners := Starting(now, passes, moves);
      log := Log(Table(), DueNow(), [], []);
      messages, handled, log := DrainRounds(now, heights, passes, moves, 0, [], [], log, owners);
    }

    /** The same with a caller that changes no timers. */
    method DrainAlone(now: nat -> int, heights: nat -> nat, passes: nat -> bool)
      returns (messages: seq<Channel>, handled: seq<Channel>)
      requires Valid() && Ready() && forall i :: now(i) >= tmCurrent && 1 <= heights(i) <= MAX_LEVEL
      modifies `tmPos, `timers, timers, list, list.head, list.nodes, channels`timerNode
      ensures Valid() && AtRest() && DueNow() == [] && tmCurrent == old(tmCurrent)
      ensures forall x :: x in list.nodes ==> fresh(x) || x in old(list.nodes)
      ensures forall t :: t in timers ==> fresh(t) || t in old(timers)
      ensures handled == old(Queue()) && messages == Passed(handled, passes, 0)
      ensures Refired(old(Table()), Table(), handled, now, 0)
    {
      messages, handled := DrainDue(now, heights, passes, i => []);
      TrackedAlone(old(Table()), Table(), handled, now, i => []);
      OwnersOfAll(old(DueNow()), handled);
    }

    /** The rounds of a drain from the i-th on. */
    method DrainRounds(now: nat -> int, heights: nat -> nat, passes: nat -> bool, moves: nat -> seq<Move>, i: nat,
                       messages: seq<Channel>, handled: seq<Channel>, ghost log: Log, ghost owners: seq<Channel>)
      returns (messages': seq<Channel>, handled': seq<Channel>, ghost log': Log)
      requires Valid() && Ready() && forall i :: now(i) >= tmCurrent && 1 <= heights(i) <= MAX_LEVEL
      requires forall i, m :: m in moves(i) ==> m.chann in channels && m.now >= tmCurrent && 1 <= m.height <= MAX_LEVEL
      requires SoFar(log, messages, owners, Table(), DueNow(), now, passes, moves) && log.handled == handled
      modifies `tmPos, `timers, timers, list, list.head, list.nodes, channels`timerNode
      ensures Valid() && DueNow() == [] && AtRest() && tmCurrent == old(tmCurrent)
      ensures forall x :: x in list.nodes ==> fresh(x) || x in old(list.nodes)
      ensures forall t :: t in timers ==> fresh(t) || t in old(timers)
      ensures SoFar(log', messages', owners, Table(), [], now, passes, moves) && log'.handled == handled'
      ensures log'.table == log.table && log'.due == log.due
      decreases |DueNow()|
    {
      var more;
      more, messages', handled', log' := Turn(now, heights, passes, messages, handled, moves, i, log, owners);
      if more {
        messages', handled', log' := DrainRounds(now, heights, passes, moves, i + 1, messages', handled', log', owners);
      }
    }

    /** One round of a drain, added to what came before it. */
    method Turn(now: nat -> int, heights: nat -> nat, passes: nat -> bool, messages: seq<Channel>,
                handled: seq<Channel>, moves: nat -> seq<Move>, i: nat, ghost log: Log, ghost owners: seq<Channel>)
      returns (more: bool, messages': seq<Channel>, handled': seq<Channel>, ghost log': Log)
      requires Valid() && Ready() && forall i :: now(i) >= tmCurrent && 1 <= heights(i) <= MAX_LEVEL
      requires forall m :: m in moves(i) ==> m.chann in channels && m.now >= tmCurrent && 1 <= m.height <= MAX_LEVEL
      requires SoFar(log, messages, owners, Table(), DueNow(), now, passes, moves) && log.handled == handled
      modifies `tmPos, `timers, timers, list, list.head, list.nodes, channels`timerNode
      ensures Valid() && Ready() && tmCurrent == old(tmCurrent)
      ensures SoFar(log', messages', owners, Table(), DueNow(), now, passes, moves) && log'.handled == handled'
      ensures log'.table == log.table && log'.due == log.due
      ensures if more then |DueNow()| < |old(DueNow())| else DueNow() == [] && AtRest()
      ensures forall x :: x in list.nodes ==> fresh(x) || x in old(list.nodes)
      ensures forall t :: t in timers ==> fresh(t) || t in old(timers)
    {
      var msg, hs, fired, c := Round(now, heights, passes, |handled|, moves(i));
      SoFarNext(log, messages, owners, old(Table()), old(DueNow()), hs, fired, msg, c, DueNow(), Table(),
                now, passes, moves, i, tmCurrent);
      log', handled' := Longer(log, hs, fired), handled + hs;
      more, messages' := msg != null, WithMessage(messages, msg);
    }

    /**
     With two timers due, a caller that on the message of the first changes the timer of the second takes
     out the node that the cursor points at: the drain cannot go on.
     */
    method ChangeSecond(value: int, now: int, height: nat) returns (first: Channel?, second: Channel)
      requires Valid() && Ready() && |DueNow()| >= 2 && now >= tmCurrent && 1 <= height <= MAX_LEVEL
      modifies `tmPos, `timers, timers, list, list.head, list.nodes, channels`timerNode
      ensures Valid() && first != null && OwnedBy(old(DueNow())[0], first) && OwnedBy(old(DueNow())[1], second)
      ensures second.state != Closed ==> !Ready()
    {
      ghost var pos;
      first, pos := FireNext(now, height);
      second := Ahead();
      SetTimer(second, value, now, height);
    }

    /** The channel whose timer comes next. */
    method Ahead() returns (n: Channel)
      requires Valid() && Ready() && DueNow() != []
      ensures OwnedBy(DueNow()[0], n) && n in channels && n.timerNode == tmPos == DueNow()[0]
    {
      assert tmPos in list.items && Mutual(tmPos);
      n := tmPos.value.chann;
    }

    /** The channels whose timers are due and not handled yet, in order. */
    ghost function Queue(): seq<Channel>
      reads `tmCurrent, list`items
    {
      OwnersOf(DueNow())
    }

    /** The channel whose timer the cursor points at. */
    ghost function Cursor(): Channel?
      reads `tmPos
    {
      if AtRest() || tmPos.value == null then null else tmPos.value.chann
    }

    lemma CursorIs(n: Channel)
      requires Valid() && Ready() && n in channels
      ensures n.timerNode != null && n.timerNode == tmPos <==> Cursor() == n
    {
      if !AtRest() { assert tmPos in list.items && Mutual(tmPos); }
    }

    lemma CursorFirst()
      requires Valid() && Ready() && DueNow() != []
      ensures Queue() != [] && Cursor() == Queue()[0]
    {
      assert list.items[0] in list.items && Mutual(list.items[0]);
    }

    lemma QueueMinus(n: Channel)
      requires Valid() && n in channels
      ensures OwnersOf(Minus(DueNow(), n.timerNode)) == Without(Queue(), n)
    {
      forall y | y in DueNow() ensures y.value != null && (y.value.chann == n <==> y == n.timerNode) {
        DueExactly(list.items, tmCurrent, y);
        assert Mutual(y);
      }
      OwnersOfMinus(DueNow(), n.timerNode, n);
    }

    /** A node in the list that is due stands for its channel's entry, and the other way round. */
    lemma DueEntry(x: SkipNode, now: int)
      requires Valid() && x in Due(list.items, now)
      ensures x.value != null && var n := x.value.chann;
              n.timerNode == x && n in Table() && Table()[n].time == x.key <= now
    {
      DueExactly(list.items, now, x);
      assert Mutual(x);
    }

    lemma EntryDue(n: Channel, now: int)
      requires Valid() && n in Table() && Table()[n].time <= now
      ensures n.timerNode != null && n.timerNode in Due(list.items, now) && OwnedBy(n.timerNode, n)
    {
      DueExactly(list.items, now, n.timerNode);
    }

    /** The queue is the channels whose deadlines have come, by deadline. */
    lemma QueueDue(now: int)
      requires Valid() && DueNow() == Due(list.items, now)
      ensures DueIn(Queue(), Table(), now)
    {
      var due := DueNow();
      var owners := Owners();
      OwnersOfAll(due, owners);
      DueOrdered(list.items, now);
      SortedIndex(due);
      forall j | 0 <= j < |due|
        ensures owners[j] in Table() && Table()[owners[j]].time == due[j].key <= now
      {
        assert due[j] in due && OwnedBy(due[j], owners[j]);
        DueEntry(due[j], now);
      }
      forall n | n in Table() && Table()[n].time <= now ensures n in owners {
        EntryDue(n, now);
        var j :| 0 <= j < |due| && due[j] == n.timerNode;
        assert OwnedBy(due[j], owners[j]);
      }
    }

    /** The channels that the due timers belong to. */
    lemma Owners() returns (owners: seq<Channel>)
      requires Valid()
      ensures OwnedAll(DueNow(), owners) && NoDup(owners) && forall j :: 0 <= j < |owners| ==> owners[j] in Table()
    {
      DueOrdered(list.items, tmCurrent);
      var due := DueNow();
      forall j | 0 <= j < |due| ensures Mutual(due[j]) {
        assert due[j] in due;
        DueExactly(list.items, tmCurrent, due[j]);
      }
      owners := seq(|due|, j requires 0 <= j < |due| && due[j].value != null => due[j].value.chann);
      NoDupIndex(due);
      NoDupIndex(owners);
    }
  }
}
