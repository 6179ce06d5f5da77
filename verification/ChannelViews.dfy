/**
 The calls of the event core one by one, each doing to the channels and the
 clock what the abstract machine does to a view.
 */
module ChannelViews {
  import opened MnetData
  import opened ChannelSpec
  import opened MnetSpec
  import opened TimerSpec
  import opened ChannelTable
  import StreamSpec
  import StreamChannel

  /** What a call leaves behind: all is in order, but for the cursor if that has been lost. */
  ghost predicate Left(m: Mnet, fate: Fate)
    reads m, m.clock, m.list`prev, m.list`next, m.doomed`delNext, m.caches, m.blocks
    reads m.list`state, m.list`mask, m.list`activeSendEvent, m.list`fd, m.list`bytesSend, m.list`accepted
    reads m.clock.list, m.clock.list.head, m.clock.list.nodes, m.clock.channels`timerNode, m.clock.timers
  {
    match fate
    case Lost => m.Valid()
    case _ => m.Valid() && m.clock.Ready()
  }

  /** mnet_chann_open. */
  method OpenNew(m: Mnet) returns (n: Channel)
    requires Left(m, Fine)
    modifies m`channs, m`channCount, m`list, m`caches, m`born, m.clock`channels, Members(m.list)`prev
    ensures Left(m, Fine) && fresh(n) && n !in old(m.Links()) && n !in old(m.gone)
    ensures Members(m.list) == old(Members(m.list)) + {n} && m.caches == old(m.caches) + {n.cache} && fresh(n.cache)
    ensures m.Now() == old(m.Now()).(list := [n] + old(m.list),
                                     links := old(m.Links())[n := Link(Disconnected, StreamSpec.Wire([], []), false)])
  {
    n := m.Create(Disconnected);
    m.LinkNew(n, Link(Disconnected, StreamSpec.Wire([], []), false));
  }

  /** _chann_accept. */
  method AcceptNew(m: Mnet, fd: int) returns (n: Channel)
    requires Left(m, Fine) && fd > 0
    modifies m`channs, m`channCount, m`list, m`caches, m`born, m.clock`channels, Members(m.list)`prev
    ensures Left(m, Fine) && fresh(n) && n !in old(m.Links()) && n !in old(m.gone)
    ensures Members(m.list) == old(Members(m.list)) + {n} && m.caches == old(m.caches) + {n.cache} && fresh(n.cache)
    ensures m.Now() == old(m.Now()).(list := [n] + old(m.list),
                                     links := old(m.Links())[n := Link(Connected, StreamSpec.Wire([], []), false)])
  {
    n := m.Accept(fd);
    m.LinkNew(n, Link(Connected, StreamSpec.Wire([], []), false));
  }

  /** A channel is made, with a connection or without. */
  method Open(m: Mnet, op: Op) returns (r: Reply)
    requires Left(m, Fine) && (op.Open? || (op.Accept? && op.fd > 0))
    modifies m`channs, m`channCount, m`list, m`caches, m`born, m.clock`channels, Members(m.list)`prev
    ensures Left(m, r.fate) && r.made != null && fresh(r.made)
    ensures forall n :: n in Members(m.list) ==> fresh(n) || n in old(Members(m.list))
    ensures forall c :: c in m.caches ==> fresh(c) || c in old(m.caches)
    ensures Does(old(m.Now()), op, m.Now(), r)
  {
    var n;
    if op.Open? {
      n := OpenNew(m);
    } else {
      n := AcceptNew(m, op.fd);
    }
    r := Reply(Fine, n, [], null);
  }

  /** Connecting, sending, flushing, switching, disconnecting. */
  method Act(m: Mnet, n: Channel, op: ChannelOp, turns: nat) returns (hung: bool)
    requires Left(m, Fine) && n in m.list
    modifies m`blocks, n`fd, n`state, n`mask, n`bytesSend, n`accepted, n`activeSendEvent, n.cache, n.cache.owned
    ensures Left(m, Fine) && forall b :: b in m.blocks ==> fresh(b) || b in old(m.blocks)
    ensures n in old(m.Links()) && (hung <==> Hangs(old(m.Links())[n], op))
    ensures m.Now() == old(m.Now()).(links := old(m.Links())[n := LinkAfter(old(m.Links())[n], op)])
  {
    ghost var link := StreamChannel.Image(n);
    hung := m.Perform(n, op, turns);
    m.OnlyLink(n, LinkAfter(link, op));
  }

  /** mnet_chann_close. */
  method Close(m: Mnet, n: Channel, turns: nat) returns (hung: bool)
    requires Left(m, Fine) && n in m.list
    modifies m`delChanns, m`doomed, n`delNext, n`state, n`fd, n`mask, n.cache
    ensures Left(m, Fine) && n in old(m.Links()) && (hung <==> old(m.Links())[n].wire.blocks != [])
    ensures var link := old(m.Links())[n];
            m.Now() == old(m.Now()).(links := old(m.Links())[n := if hung then link else link.(state := Closed)])
  {
    ghost var link := StreamChannel.Image(n);
    n.cache.Facts();
    var done := m.Close(n, turns);
    hung := !done;
    m.OnlyLink(n, if hung then link else link.(state := Closed));
  }

  /** Setting or dropping a timer. */
  method SetTimer(m: Mnet, n: Channel, value: int, now: int, height: nat) returns (fate: Fate)
    requires Left(m, Fine) && n in m.list && now >= m.clock.tmCurrent && 1 <= height <= MAX_LEVEL
    modifies m.clock`timers, m.clock.timers, m.clock.list, m.clock.list.head, m.clock.list.nodes, n`timerNode
    ensures Left(m, fate)
    ensures fate == if n.state != Closed && old(m.Now()).hand.cursor == n then Lost else Fine
    ensures m.Now() == if n.state == Closed then old(m.Now())
                       else old(m.Now()).(hand := Retimed(old(m.Now()).hand, n, value, now))
    ensures forall x :: x in m.clock.list.nodes ==> fresh(x) || x in old(m.clock.list.nodes)
    ensures forall t :: t in m.clock.timers ==> fresh(t) || t in old(m.clock.timers)
  {
    var lost := m.SetTimer(n, value, now, height);
    m.LinksKept();
    fate := if lost then Lost else Fine;
  }

  /** mnet_poll. */
  method Poll(m: Mnet, now: int, turns: nat)
    requires m.Valid() && now >= m.clock.tmCurrent
    modifies m`channs, m`delChanns, m`channCount, m`list, m`doomed, m`gone
    modifies Members(m.list)`prev, Members(m.list)`next, m.caches, Members(m.list)`timerNode
    modifies m.clock`channels, m.clock`tmPos, m.clock`tmCurrent, m.clock.list, m.clock.list.head, m.clock.list.nodes
    ensures Left(m, Fine) && Members(m.list) <= old(Members(m.list))
    ensures m.clock.list.nodes == old(m.clock.list.nodes) && old(m.clock.tmCurrent) <= m.clock.tmCurrent <= now
    ensures Does(old(m.Now()), Op.Poll(now), m.Now(), Quiet)
  {
    ghost var v, doomed, standing := m.Now(), m.doomed, m.Standing();
    assert ClosedIn(v) == Members(doomed);
    m.Poll(now, turns);
    SweptAll(standing, m.Standing(), doomed);
    m.LinksLess(Members(doomed));
  }

  /**
   A poll, and the timer messages it leads to if the caller does nothing in between: the timers handled are
   those due of the channels that were open when the poll began, by deadline, and each is re-armed.
   */
  method PollTimers(m: Mnet, now: int, later: nat -> int, heights: nat -> nat, passes: nat -> bool, turns: nat)
    returns (messages: seq<Channel>, handled: seq<Channel>, ghost begun: View)
    requires m.Valid() && now >= m.clock.tmCurrent
    requires forall i :: later(i) >= now && 1 <= heights(i) <= MAX_LEVEL
    modifies m`channs, m`delChanns, m`channCount, m`list, m`doomed, m`gone
    modifies Members(m.list)`prev, Members(m.list)`next, m.caches, Members(m.list)`timerNode
    modifies m.clock`channels, m.clock`tmPos, m.clock`tmCurrent, m.clock`timers
    modifies m.clock.timers, m.clock.list, m.clock.list.head, m.clock.list.nodes
    ensures m.Valid() && m.AtEase() && Polls(old(m.Now()), begun, now)
    ensures handled == begun.hand.due && messages == Passed(handled, passes, 0)
    ensures forall n :: n in handled ==> n in begun.links && begun.links[n].state != Closed
    ensures Refired(begun.hand.timers, m.clock.Table(), handled, later, 0)
  {
    Poll(m, now, turns);
    begun := m.Now();
    PolledOpen(m, old(m.Now()), now);
    messages, handled := m.DrainTimers(later, heights, passes);
  }

  /** After a poll the channels due are in the list, and open. */
  lemma PolledOpen(m: Mnet, v: View, now: int)
    requires m.Valid() && Polls(v, m.Now(), now)
    ensures var begun := m.Now();
            forall n :: n in begun.hand.due ==> n in begun.links && begun.links[n].state != Closed
  {
    var begun := m.Now();
    forall n | n in begun.hand.due ensures n in begun.links && begun.links[n].state != Closed {
      assert n in m.clock.Table();
    }
  }

  /** The next timer message of mnet_result_next. */
  method NextTimer(m: Mnet, op: Op) returns (r: Reply)
    requires Left(m, Fine) && op.NextTimer?
    requires forall i :: op.later(i) >= m.clock.tmCurrent && 1 <= op.heights(i) <= MAX_LEVEL
    modifies m.clock`tmPos, m.clock.timers, m.clock.list, m.clock.list.head, m.clock.list.nodes
    modifies Members(m.list)`timerNode
    ensures Left(m, r.fate) && m.clock.tmCurrent == old(m.clock.tmCurrent)
    ensures Does(old(m.Now()), op, m.Now(), r)
    ensures forall x :: x in m.clock.list.nodes ==> fresh(x) || x in old(m.clock.list.nodes)
  {
    var message, handled := m.NextTimer(op.later, op.heights, op.passes);
    m.LinksKept();
    r := Reply(Fine, null, handled, message);
  }
}
