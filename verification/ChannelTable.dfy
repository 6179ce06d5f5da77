/**
 The channels of the event core: a doubly linked list of all of them, and a
 list of those closed, which are destroyed only when the next poll begins.
 */
module ChannelTable {
  import opened MnetData
  import opened QueueSpec
  import SendBuffer
  import StreamSpec
  import opened ChannelSpec
  import StreamChannel
  import opened Timers
  import opened TimerSpec
  import opened MnetSpec

  // ----- lists through the channels' own links

  ghost function After(q: seq<Channel>, i: nat): Channel? {
    if i + 1 < |q| then q[i + 1] else null
  }

  ghost function Prior(q: seq<Channel>, i: nat): Channel? {
    if 0 < i <= |q| then q[i - 1] else null
  }

  ghost function First(q: seq<Channel>): Channel? {
    if q == [] then null else q[0]
  }

  ghost predicate Linked(q: seq<Channel>)
    reads q`prev, q`next
  {
    && (forall i {:trigger q[i].next} :: 0 <= i < |q| ==> q[i].next == After(q, i))
    && (forall i {:trigger q[i].prev} :: 0 <= i < |q| ==> q[i].prev == Prior(q, i))
  }

  ghost predicate DelLinked(q: seq<Channel>)
    reads q`delNext
  {
    forall i {:trigger q[i].delNext} :: 0 <= i < |q| ==> q[i].delNext == After(q, i)
  }

  ghost function Members(q: seq<Channel>): set<Channel> {
    set n | n in q
  }

  ghost function CachesOf(q: seq<Channel>): set<SendBuffer.SendCache> {
    set n | n in q :: n.cache
  }

  /** The new channel goes to the front. */
  method PushFront(n: Channel, head: Channel?, ghost q: seq<Channel>)
    requires Distinct(q) && Linked(q) && head == First(q) && n !in q && n.prev == null
    modifies n`next, Members(q)`prev
    ensures Linked([n] + q)
  {
    n.next := head;
    if head != null {
      head.prev := n;
    }
    ghost var r := [n] + q;
    forall i | 0 <= i < |r| ensures r[i].next == After(r, i) && r[i].prev == Prior(r, i) {
      if i > 0 {
        assert r[i] == q[i - 1] && q[i - 1].next == After(q, i - 1);
        assert i > 1 ==> r[i - 1] == q[i - 2] && q[i - 1].prev == old(q[i - 1].prev) == Prior(q, i - 1);
      }
    }
  }

  /** The neighbours of `n` close ranks. */
  method Unlink(n: Channel, head: Channel?, ghost a: seq<Channel>, ghost b: seq<Channel>) returns (h: Channel?)
    requires Distinct(a + [n] + b) && Linked(a + [n] + b) && head == First(a + [n] + b)
    modifies Members(a + [n] + b)`prev, Members(a + [n] + b)`next
    ensures Linked(a + b) && h == First(a + b)
  {
    ghost var r, q, m := a + [n] + b, a + b, |a|;
    assert r[m] == n && n.next == After(r, m) && n.prev == Prior(r, m);
    h := head;
    if n.next != null {
      assert r[m + 1] == n.next;
      n.next.prev := n.prev;
    }
    if n.prev != null {
      assert r[m - 1] == n.prev;
      n.prev.next := n.next;
    } else {
      h := n.next;
    }
    forall i | 0 <= i < |q| ensures q[i].next == After(q, i) && q[i].prev == Prior(q, i) {
      var k := if i < m then i else i + 1;
      assert q[i] == r[k];
    }
  }

  /** Every channel's sending side is in order, and no two share a cache. */
  ghost predicate StreamsOf(ms: set<Channel>, caches: set<SendBuffer.SendCache>, blocks: set<SendBuffer.Block>)
    reads ms`state, ms`mask, ms`activeSendEvent, ms`fd, ms`bytesSend, ms`accepted, caches, blocks
  {
    && (forall n :: n in ms ==> n.cache in caches && n.cache.owned <= blocks && StreamChannel.Valid(n))
    && (forall n, m :: n in ms && m in ms && n != m ==> n.cache != m.cache && n.cache.owned !! m.cache.owned)
  }

  /** Exactly the closed channels of `ms` are to be destroyed, each once. */
  ghost predicate DoomedOf(q: seq<Channel>, ms: set<Channel>)
    reads ms`state, q`delNext
  {
    && Distinct(q) && DelLinked(q)
    && Members(q) <= ms
    && (forall n :: n in ms ==> (n.state == Closed <==> n in Members(q)))
  }

  lemma DoomedAdd(q: seq<Channel>, ms: set<Channel>, n: Channel)
    requires DoomedOf(q, ms) && n !in ms && n.state != Closed
    ensures DoomedOf(q, ms + {n})
  {
  }

  lemma StreamsAdd(ms: set<Channel>, n: Channel, caches: set<SendBuffer.SendCache>, blocks: set<SendBuffer.Block>)
    requires StreamsOf(ms, caches, blocks) && n.cache !in caches && n.cache.owned == {} && StreamChannel.Valid(n)
    ensures StreamsOf(ms + {n}, caches + {n.cache}, blocks)
  {
  }

  lemma StreamsSubset(ms: set<Channel>, less: set<Channel>, caches: set<SendBuffer.SendCache>,
                      blocks: set<SendBuffer.Block>)
    requires StreamsOf(ms, caches, blocks) && less <= ms
    ensures StreamsOf(less, caches, blocks)
  {
  }

  /** _rwb_destroy on the cache of a closed channel ends at once. */
  method ReleaseCache(n: Channel, turns: nat, ghost ms: set<Channel>, ghost caches: set<SendBuffer.SendCache>,
                      ghost blocks: set<SendBuffer.Block>)
    requires StreamsOf(ms, caches, blocks) && n in ms && n.state == Closed
    modifies n.cache
    ensures StreamsOf(ms, caches, blocks) && n.cache.count == 0 && n.cache.blocks == old(n.cache.blocks)
  {
    assert StreamChannel.Valid(n);
    var over := n.cache.Destroy(turns);
    assert over;
  }

  /** What happens to one channel is nothing to the others. */
  method PerformIn(n: Channel, op: ChannelOp, turns: nat, ghost ms: set<Channel>,
                   ghost caches: set<SendBuffer.SendCache>, ghost blocks: set<SendBuffer.Block>) returns (hung: bool)
    requires StreamsOf(ms, caches, blocks) && n in ms
    modifies n`fd, n`state, n`mask, n`bytesSend, n`accepted, n`activeSendEvent, n.cache, n.cache.owned
    ensures StreamsOf(ms, caches, blocks + n.cache.owned) && (n.state == Closed <==> old(n.state) == Closed)
    ensures forall b :: b in n.cache.owned ==> fresh(b) || b in old(n.cache.owned)
    ensures StreamChannel.Image(n) == LinkAfter(old(StreamChannel.Image(n)), op)
    ensures hung <==> Hangs(old(StreamChannel.Image(n)), op)
    ensures forall m :: m in ms && m != n ==> StreamChannel.Image(m) == old(StreamChannel.Image(m))
  {
    assert StreamChannel.Valid(n);
    hung := StreamChannel.Perform(n, op, turns);
    forall m | m in ms && m != n ensures m.cache != n.cache && m.cache.owned !! n.cache.owned {
      assert m.cache.owned == old(m.cache.owned);
    }
  }

  /** Marking a channel with an empty cache as closed. */
  method SetClosed(n: Channel, ghost ms: set<Channel>, ghost caches: set<SendBuffer.SendCache>,
                   ghost blocks: set<SendBuffer.Block>)
    requires StreamsOf(ms, caches, blocks) && n in ms && n.cache.count == 0
    modifies n`state
    ensures StreamsOf(ms, caches, blocks) && n.state == Closed
  {
    n.state := Closed;
  }

  class Mnet {
    var channs: Channel?
    var delChanns: Channel?
    var channCount: nat
    const clock: Clock
    ghost var list: seq<Channel>      // all channels, the newest first
    ghost var doomed: seq<Channel>    // those to be destroyed, the latest closed first
    ghost var caches: set<SendBuffer.SendCache>
    ghost var blocks: set<SendBuffer.Block>
    ghost var born: set<Channel>      // all channels ever created
    ghost var gone: set<Channel>      // those destroyed

    /** The list of channels is in order. */
    ghost predicate Listed()
      reads `list, `channs, `channCount, list`prev, list`next
    {
      Distinct(list) && Linked(list) && channs == First(list) && channCount == |list|
    }

    /** The clock knows the same channels. */
    ghost predicate Known()
      reads `list, clock`channels
    {
      clock.channels == Members(list)
    }

    /** All objects that belong here. */
    ghost function Footprint(): set<object>
      reads this, clock, clock.list
    {
      {this, clock, clock.list, clock.list.head} + clock.list.nodes + clock.timers + Members(list) + caches + blocks
    }

    /** The sending sides of all channels. */
    ghost function Links(): map<Channel, Link>
      reads `list, list`state, list`accepted, list`activeSendEvent, CachesOf(list)`blocks
    {
      map n | n in Members(list) :: StreamChannel.Image(n)
    }

    ghost function TheHand(): Hand
      reads clock`channels, clock`timers, clock.channels`timerNode, clock.timers
      reads clock`tmPos, clock`tmCurrent, clock.list`items
    {
      Hand(clock.Table(), clock.Queue(), clock.Cursor())
    }

    /** What a program can tell apart. */
    ghost function Now(): View
      reads `list, list`state, list`accepted, list`activeSendEvent, CachesOf(list)`blocks, `gone
      reads clock`channels, clock`timers, clock.channels`timerNode, clock.timers
      reads clock`tmPos, clock`tmCurrent, clock.list`items
    {
      View(list, Links(), gone, TheHand())
    }

    /** A channel once created is in the list until it is destroyed, and never again. */
    ghost predicate Counted()
      reads `list, `born, `gone
    {
      born == Members(list) + gone && Members(list) !! gone
    }

    ghost predicate Doomed(q: seq<Channel>)
      reads `list, list`state, q`delNext
    {
      DoomedOf(q, Members(list))
    }

    ghost predicate Streams()
      reads `list, `caches, `blocks, caches, blocks
      reads list`state, list`mask, list`activeSendEvent, list`fd, list`bytesSend, list`accepted
    {
      StreamsOf(Members(list), caches, blocks)
    }

    ghost predicate Timed()
      reads clock, clock.list, clock.list.head, clock.list.nodes, clock.channels`timerNode, clock.timers
    {
      clock.Valid()
    }

    /** What destroying channels needs and keeps. */
    ghost predicate Sound()
      reads `list, `channs, `channCount, `caches, `blocks, `born, `gone, clock, list`prev, list`next, caches, blocks
      reads list`state, list`mask, list`activeSendEvent, list`fd, list`bytesSend, list`accepted
      reads clock.list, clock.list.head, clock.list.nodes, clock.channels`timerNode, clock.timers
    {
      Listed() && Known() && Counted() && Streams() && Timed()
    }

    ghost predicate Valid()
      reads this, clock, list`prev, list`next, doomed`delNext, caches, blocks
      reads list`state, list`mask, list`activeSendEvent, list`fd, list`bytesSend, list`accepted
      reads clock.list, clock.list.head, clock.list.nodes, clock.channels`timerNode, clock.timers
    {
      Sound() && Doomed(doomed) && delChanns == First(doomed)
    }

    constructor ()
      ensures Valid() && AtEase() && Now() == Empty && doomed == [] && caches == {} && blocks == {} && born == {}
      ensures fresh(clock) && fresh(clock.list) && fresh(clock.list.head) && clock.list.nodes == {} &&
              clock.timers == {} && clock.tmCurrent == 0
    {
      channs, delChanns, channCount, list, doomed := null, null, 0, [], [];
      caches, blocks, born, gone := {}, {}, {}, {};
      clock := new Clock({});
    }

    /** The list part of _chann_create. */
    method Enlist(n: Channel)
      requires Listed() && n !in Members(list) && n.prev == null
      modifies `channs, `channCount, `list, n`next, Members(list)`prev
      ensures Listed() && list == [n] + old(list) && Members(list) == old(Members(list)) + {n}
    {
      PushFront(n, channs, list);
      channs := n;
      channCount := channCount + 1;
      list := [n] + list;
    }

    /** _chann_create. */
    method Create(state: ChannelState) returns (n: Channel)
      requires Valid() && state == Disconnected
      modifies `channs, `channCount, `list, `caches, `born, clock`channels, Members(list)`prev
      ensures Valid() && fresh(n) && fresh(n.cache) && list == [n] + old(list) && doomed == old(doomed)
      ensures n.state == state && caches == old(caches) + {n.cache} && born == old(born) + {n} && n !in old(born)
      ensures Members(list) == old(Members(list)) + {n} && n !in old(Members(list))
      ensures StreamChannel.Image(n) == Link(state, StreamSpec.Wire([], []), false) && n.timerNode == null
    {
      n := new Channel(state);
      assert Valid() == old(Valid());
      Admit(n);
    }

    /** _chann_accept: a channel for a connection that is there already. */
    method Accept(fd: int) returns (n: Channel)
      requires Valid() && fd > 0
      modifies `channs, `channCount, `list, `caches, `born, clock`channels, Members(list)`prev
      ensures Valid() && fresh(n) && fresh(n.cache) && list == [n] + old(list) && doomed == old(doomed)
      ensures n.state == Connected && caches == old(caches) + {n.cache} && born == old(born) + {n} && n !in old(born)
      ensures Members(list) == old(Members(list)) + {n} && n !in old(Members(list))
      ensures StreamChannel.Image(n) == Link(Connected, StreamSpec.Wire([], []), false) && n.timerNode == null
    {
      n := StreamChannel.Accept(fd);
      assert Valid() == old(Valid());
      Admit(n);
    }

    /** A channel that has nothing yet is linked in and made known to the clock. */
    method Admit(n: Channel)
      requires Valid() && n !in born && n.prev == null && n.timerNode == null
      requires n.state != Closed && n.cache !in caches && n.cache.owned == {} && StreamChannel.Valid(n)
      modifies `channs, `channCount, `list, `caches, `born, n`next, clock`channels, Members(list)`prev
      ensures Valid() && list == [n] + old(list) && doomed == old(doomed) && caches == old(caches) + {n.cache}
      ensures born == old(born) + {n} && Members(list) == old(Members(list)) + {n}
    {
      ghost var ms := Members(list);
      AdmitStream(n);
      assert DoomedOf(doomed, ms) == old(DoomedOf(doomed, ms));
      DoomedAdd(doomed, ms, n);
      assert Timed() == old(Timed());
      label Listing:
      EnrolTimer(n);
      assert Listed() == old@Listing(Listed());
      assert Streams() == old@Listing(Streams());
    }

    method EnrolTimer(n: Channel)
      requires Timed() && n !in clock.channels && n.timerNode == null
      modifies clock`channels
      ensures Timed() && clock.channels == old(clock.channels) + {n}
    {
      clock.Enrol(n);
    }

    /** The same, but for the clock. */
    method AdmitStream(n: Channel)
      requires Listed() && Counted() && Streams() && n !in born && n.prev == null
      requires n.cache !in caches && n.cache.owned == {} && StreamChannel.Valid(n)
      modifies `channs, `channCount, `list, `caches, `born, n`next, Members(list)`prev
      ensures Listed() && Counted() && Streams() && list == [n] + old(list) && Members(list) == old(Members(list)) + {n}
      ensures caches == old(caches) + {n.cache} && born == old(born) + {n}
    {
      ghost var ms := Members(list);
      EnlistIn(n, ms);
      StreamsAdd(ms, n, caches, blocks);
      caches, born := caches + {n.cache}, born + {n};
    }

    /** Enlist, as far as the other channels' streams are concerned. */
    method EnlistIn(n: Channel, ghost ms: set<Channel>)
      requires Listed() && n !in Members(list) && n.prev == null && StreamsOf(ms, caches, blocks)
      modifies `channs, `channCount, `list, n`next, Members(list)`prev
      ensures Listed() && list == [n] + old(list) && Members(list) == old(Members(list)) + {n}
      ensures StreamsOf(ms, caches, blocks)
    {
      Enlist(n);
      assert StreamsOf(ms, caches, blocks) == old(StreamsOf(ms, caches, blocks));
    }

    /** The part of _chann_close_socket that works on the links: the channel joins those to be destroyed. */
    method MarkClosed(n: Channel)
      requires Streams() && n in list && n.cache.count == 0
      modifies `delChanns, n`delNext, n`state
      ensures Streams() && n.state == Closed
      ensures if old(n.state) == Closed then delChanns == old(delChanns) && n.delNext == old(n.delNext)
              else delChanns == n && n.delNext == old(delChanns)
    {
      if n.state != Closed {
        n.delNext := delChanns;
        delChanns := n;
        SetClosed(n, Members(list), caches, blocks);
      }
    }

    /** _chann_close_socket. */
    method CloseSocket(n: Channel)
      requires Streams() && Doomed(doomed) && delChanns == First(doomed) && n in list && n.cache.count == 0
      modifies `delChanns, `doomed, n`delNext, n`state
      ensures Streams() && Doomed(doomed) && delChanns == First(doomed) && n.state == Closed
      ensures doomed == if old(n.state) == Closed then old(doomed) else [n] + old(doomed)
    {
      if n.state != Closed {
        CloseOpen(n);
      }
    }

    /** The same for a channel that is not closed yet. */
    method CloseOpen(n: Channel)
      requires Streams() && Doomed(doomed) && delChanns == First(doomed)
      requires n in list && n.cache.count == 0 && n.state != Closed
      modifies `delChanns, `doomed, n`delNext, n`state
      ensures Streams() && Doomed(doomed) && delChanns == First(doomed)
      ensures n.state == Closed && doomed == [n] + old(doomed)
    {
      assert n in Members(list) && n !in doomed by { assert n !in Members(doomed); }
      MarkClosed(n);
      DelPush(n, doomed);
      doomed := [n] + doomed;
    }

    /** _chann_disconnect_socket. */
    method TearDown(n: Channel, turns: nat) returns (done: bool)
      requires Streams() && n in list
      modifies n`fd, n`state, n`mask, n.cache
      ensures Streams() && (done <==> old(n.cache.count) == 0) && n.cache.count == old(n.cache.count)
      ensures n.state == Closed <==> old(n.state) == Closed
      ensures n.cache.blocks == old(n.cache.blocks) && (!done ==> n.state == old(n.state))
    {
      assert StreamChannel.Valid(n);
      done := StreamChannel.Disconnect(n, turns);
    }

    /** mnet_chann_close. With bytes cached it never comes back; otherwise the channel is doomed. */
    method Close(n: Channel, turns: nat) returns (done: bool)
      requires Valid() && n in list
      modifies `delChanns, `doomed, n`delNext, n`state, n`fd, n`mask, n.cache
      ensures Valid() && (done <==> old(n.cache.count) == 0) && (done ==> n.state == Closed)
      ensures doomed == if !done || old(n.state) == Closed then old(doomed) else [n] + old(doomed)
      ensures StreamChannel.Image(n) ==
              if done then old(StreamChannel.Image(n)).(state := Closed) else old(StreamChannel.Image(n))
      ensures forall c :: c in Members(list) && c != n ==> StreamChannel.Image(c) == old(StreamChannel.Image(c))
    {
      done := CloseStream(n, turns);
      assert Listed() == old(Listed()) && Timed() == old(Timed());
    }

    /** The same, as far as the streams and the delete list are concerned. */
    method CloseStream(n: Channel, turns: nat) returns (done: bool)
      requires Streams() && Doomed(doomed) && delChanns == First(doomed) && n in list
      modifies `delChanns, `doomed, n`delNext, n`state, n`fd, n`mask, n.cache
      ensures Streams() && Doomed(doomed) && delChanns == First(doomed)
      ensures (done <==> old(n.cache.count) == 0) && (done ==> n.state == Closed)
      ensures doomed == if !done || old(n.state) == Closed then old(doomed) else [n] + old(doomed)
      ensures StreamChannel.Image(n) ==
              if done then old(StreamChannel.Image(n)).(state := Closed) else old(StreamChannel.Image(n))
      ensures forall c :: c in Members(list) && c != n ==> StreamChannel.Image(c) == old(StreamChannel.Image(c))
    {
      assert StreamChannel.Valid(n);
      if n.state == Closed {
        return true;
      }
      done := TearDown(n, turns);
      if done {
        CloseSocket(n);
      }
    }

    /** The links stay when the fields they show do. */
    twostate lemma LinksKept()
      requires list == old(list)
      requires forall c :: c in Members(list) ==> StreamChannel.Image(c) == old(StreamChannel.Image(c))
      ensures Links() == old(Links())
    {
    }

    /** One link alone has changed. */
    twostate lemma LinkSet(new n: Channel, new l: Link)
      requires list == old(list) && n in Members(list) && StreamChannel.Image(n) == l
      requires forall c :: c in Members(list) && c != n ==> StreamChannel.Image(c) == old(StreamChannel.Image(c))
      ensures n in old(Links()) && Links() == old(Links())[n := l]
    {
    }

    /** And so does the hand. */
    twostate lemma HandKept()
      requires clock.channels == old(clock.channels) && clock.timers == old(clock.timers)
      requires clock.tmPos == old(clock.tmPos) && clock.tmCurrent == old(clock.tmCurrent)
      requires clock.list.items == old(clock.list.items)
      requires forall c :: c in clock.channels ==> c.timerNode == old(c.timerNode)
      requires forall t :: t in clock.timers ==> t.interval == old(t.interval)
      ensures TheHand() == old(TheHand())
    {
    }

    /** One link alone has changed, and the clock has not. */
    twostate lemma OnlyLink(new n: Channel, new l: Link)
      requires list == old(list) && gone == old(gone) && n in Members(list) && StreamChannel.Image(n) == l
      requires forall c :: c in Members(list) && c != n ==> StreamChannel.Image(c) == old(StreamChannel.Image(c))
      requires clock.channels == old(clock.channels) && clock.timers == old(clock.timers)
      requires clock.tmPos == old(clock.tmPos) && clock.tmCurrent == old(clock.tmCurrent)
      requires clock.list.items == old(clock.list.items)
      requires forall c :: c in clock.channels ==> c.timerNode == old(c.timerNode)
      requires forall t :: t in clock.timers ==> t.interval == old(t.interval)
      ensures n in old(Links()) && Now() == old(Now()).(links := old(Links())[n := l])
    {
      LinkSet(n, l);
      HandKept();
    }

    /** The links of those left. */
    twostate lemma LinksLess(new away: set<Channel>)
      requires Members(list) == old(Members(list)) - away
      requires forall c :: c in Members(list) ==> StreamChannel.Image(c) == old(StreamChannel.Image(c))
      ensures Links() == old(Links()) - away
    {
    }

    /** A channel has come in. */
    twostate lemma LinkNew(new n: Channel, new l: Link)
      requires list == [n] + old(list) && Members(list) == old(Members(list)) + {n} && n !in old(Members(list))
      requires gone == old(gone) && n.timerNode == null && StreamChannel.Image(n) == l
      requires forall c :: c in old(Members(list)) ==> StreamChannel.Image(c) == old(StreamChannel.Image(c))
      requires clock.channels == old(clock.channels) + {n} && clock.timers == old(clock.timers)
      requires clock.tmPos == old(clock.tmPos) && clock.tmCurrent == old(clock.tmCurrent)
      requires clock.list.items == old(clock.list.items)
      requires forall c :: c in old(clock.channels) ==> c.timerNode == old(c.timerNode)
      requires forall t :: t in clock.timers ==> t.interval == old(t.interval)
      ensures n !in old(Links()) && Now() == old(Now()).(list := [n] + old(list), links := old(Links())[n := l])
    {
      assert Links() == old(Links())[n := l];
      assert clock.Table() == old(clock.Table());
    }

    /** The list part of _chann_destroy. */
    method Delist(n: Channel)
      requires Listed() && n in list
      modifies `channs, `channCount, `list, Members(list)`prev, Members(list)`next
      ensures Listed() && list == Without(old(list), n)
      ensures Members(list) == old(Members(list)) - {n} && |list| == |old(list)| - 1
    {
      ghost var a, b := Around(list, n);
      channs := Unlink(n, channs, a, b);
      channCount := channCount - 1;
      list := a + b;
    }

    /** The channel leaves the list and its cache is released. */
    method Detach(n: Channel, turns: nat)
      requires Listed() && Counted() && Streams() && n in list && n.state == Closed
      modifies `channs, `channCount, `list, `gone, Members(list)`prev, Members(list)`next, n.cache
      ensures Listed() && Counted() && Streams() && list == Without(old(list), n)
      ensures gone == old(gone) + {n} && n !in old(gone)
      ensures Members(list) == old(Members(list)) - {n} && |list| == |old(list)| - 1 && n.cache.count == 0
      ensures n.cache.blocks == old(n.cache.blocks)
    {
      ghost var ms := Members(list);
      Delist(n);
      gone := gone + {n};
      assert StreamsOf(ms, caches, blocks) == old(StreamsOf(ms, caches, blocks));
      ReleaseCache(n, turns, ms, caches, blocks);
      StreamsSubset(ms, Members(list), caches, blocks);
    }

    method DropTimer(n: Channel)
      requires Timed() && n in clock.channels
      modifies clock`channels, clock.list, clock.list.head, clock.list.nodes, n`timerNode
      ensures Timed() && clock.channels == old(clock.channels) - {n} && clock.list.nodes == old(clock.list.nodes)
      ensures clock.Table() == old(clock.Table()) - {n}
    {
      clock.Dismiss(n);
    }

    /** _chann_destroy, for a channel that is closed; its cache is empty, so that _rwb_destroy ends at once. */
    method Destroy(n: Channel, turns: nat)
      requires Sound() && n in list && n.state == Closed
      modifies `channs, `channCount, `list, `gone, Members(list)`prev, Members(list)`next, n.cache
      modifies clock`channels, clock.list, clock.list.head, clock.list.nodes, n`timerNode
      ensures Sound() && list == Without(old(list), n) && gone == old(gone) + {n} && n !in old(gone)
      ensures Members(list) == old(Members(list)) - {n} && |list| == |old(list)| - 1
      ensures clock.list.nodes == old(clock.list.nodes) && n.cache.count == 0
      ensures n.cache.blocks == old(n.cache.blocks) && clock.Table() == old(clock.Table()) - {n}
    {
      Detach(n, turns);
      label Detached:
      assert Timed() == old(Timed());
      HandKept();
      DropTimer(n);
      assert Listed() == old@Detached(Listed());
      assert Streams() == old@Detached(Streams());
    }

    /** What destruction takes channels from. */
    ghost function Standing(): Roll
      reads `list, `gone, clock`channels, clock`timers, clock.channels`timerNode, clock.timers
    {
      Roll(list, clock.Table(), gone)
    }

    /** One turn of _evt_del_channs: the first of `q` goes. */
    method DestroyFirst(n: Channel, turns: nat, ghost q: seq<Channel>) returns (next: Channel?)
      requires Sound() && Doomed(q) && q != [] && n == q[0]
      modifies `channs, `channCount, `list, `gone, Members(list)`prev, Members(list)`next, n.cache
      modifies clock`channels, clock.list, clock.list.head, clock.list.nodes, n`timerNode
      ensures Sound() && Doomed(q[1..]) && next == First(q[1..])
      ensures clock.list.nodes == old(clock.list.nodes) && Standing() == Struck(old(Standing()), n)
      ensures forall c :: c in Members(list) ==> StreamChannel.Image(c) == old(StreamChannel.Image(c))
    {
      DelTail(q);
      next := n.delNext;
      Destroy(n, turns);
    }

    /** The loop of _evt_del_channs. */
    method DestroyAll(first: Channel?, turns: nat, ghost q: seq<Channel>)
      requires Sound() && Doomed(q) && first == First(q)
      modifies `channs, `channCount, `list, `gone, Members(list)`prev, Members(list)`next, caches
      modifies clock`channels, clock.list, clock.list.head, clock.list.nodes, Members(list)`timerNode
      ensures Sound() && Doomed([]) && clock.list.nodes == old(clock.list.nodes)
      ensures Swept(old(Standing()), Standing(), q, [])
      ensures forall c :: c in Members(list) ==> StreamChannel.Image(c) == old(StreamChannel.Image(c))
    {
      var n := first;
      ghost var rest := q;
      SweptNone(Standing(), q);
      while n != null
        invariant Sound() && Doomed(rest) && n == First(rest)
        invariant clock.list.nodes == old(clock.list.nodes)
        invariant Swept(old(Standing()), Standing(), q, rest)
        invariant forall c :: c in Members(list) ==> StreamChannel.Image(c) == old(StreamChannel.Image(c))
        decreases |rest|
      {
        SweptNext(old(Standing()), Standing(), q, rest);
        n := DestroyFirst(n, turns, rest);
        rest := rest[1..];
      }
    }

    /** _evt_del_channs: every closed channel is destroyed, once, and no other. */
    method DestroyDoomed(turns: nat)
      requires Valid()
      modifies `channs, `delChanns, `channCount, `list, `doomed, `gone, Members(list)`prev, Members(list)`next, caches
      modifies clock`channels, clock.list, clock.list.head, clock.list.nodes, Members(list)`timerNode
      ensures Valid() && doomed == [] && clock.list.nodes == old(clock.list.nodes)
      ensures Swept(old(Standing()), Standing(), old(doomed), [])
      ensures forall c :: c in Members(list) ==> StreamChannel.Image(c) == old(StreamChannel.Image(c))
    {
      DestroyAll(delChanns, turns, doomed);
      ForgetDoomed();
    }

    method ForgetDoomed()
      requires Sound() && Doomed([])
      modifies `delChanns, `doomed
      ensures Valid() && doomed == [] && Standing() == old(Standing())
    {
      delChanns := null;
      doomed := [];
      HandKept();
      assert Sound() == old(Sound());
    }

    /** No timer in the clock belongs to a closed channel. */
    ghost predicate TimersOpen()
      reads clock`channels, clock.list, clock.channels`state
    {
      forall x :: x in clock.list.items ==>
        x.value != null && x.value.chann in clock.channels && x.value.chann.state != Closed
    }

    /** The start of _evt_poll: closed channels go, then due timers are looked for. */
    method Poll(now: int, turns: nat)
      requires Valid() && now >= clock.tmCurrent
      modifies `channs, `delChanns, `channCount, `list, `doomed, `gone, Members(list)`prev, Members(list)`next, caches
      modifies clock`channels, clock`tmPos, clock`tmCurrent, clock.list, clock.list.head, clock.list.nodes
      modifies Members(list)`timerNode
      ensures Valid() && doomed == [] && TimersOpen() && clock.Ready()
      ensures clock.list.nodes == old(clock.list.nodes) && old(clock.tmCurrent) <= clock.tmCurrent <= now
      ensures Swept(old(Standing()), Standing(), old(doomed), [])
      ensures forall c :: c in Members(list) ==> StreamChannel.Image(c) == old(StreamChannel.Image(c))
      ensures Scheduled(TheHand(), now)
    {
      DestroyDoomed(turns);
      OpenTimers();
      ScheduleOpen(now);
    }

    /** Looking for due timers when no channel is closed. */
    method ScheduleOpen(now: int)
      requires Valid() && doomed == [] && TimersOpen() && now >= clock.tmCurrent
      modifies clock`tmPos, clock`tmCurrent
      ensures Valid() && TimersOpen() && clock.Ready() && Scheduled(TheHand(), now)
      ensures old(clock.tmCurrent) <= clock.tmCurrent <= now && Standing() == old(Standing())
    {
      ScheduleTimers(now);
      assert Listed() == old(Listed());
      assert Streams() == old(Streams());
      assert TimersOpen() == old(TimersOpen());
    }

    method ScheduleTimers(now: int)
      requires Timed() && now >= clock.tmCurrent
      modifies clock`tmPos, clock`tmCurrent
      ensures Timed() && clock.Ready() && clock.DueNow() == Due(clock.list.items, now)
      ensures old(clock.tmCurrent) <= clock.tmCurrent <= now && clock.Table() == old(clock.Table())
      ensures Scheduled(TheHand(), now)
    {
      clock.Schedule(now);
      clock.QueueDue(now);
      if clock.DueNow() != [] { clock.CursorFirst(); }
    }

    /** With nobody doomed, every timer belongs to an open channel. */
    lemma OpenTimers()
      requires Valid() && doomed == []
      ensures TimersOpen()
    {
      forall x | x in clock.list.items ensures clock.Mutual(x) && x.value.chann.state != Closed {
        assert clock.Mutual(x);
      }
    }

    /** Closes and destroys a channel at once. */
    method Retire(n: Channel, turns: nat)
      requires Sound() && n in list && n.cache.count == 0
      modifies `delChanns, n`delNext, n`state
      modifies `channs, `channCount, `list, `gone, Members(list)`prev, Members(list)`next, n.cache
      modifies clock`channels, clock.list, clock.list.head, clock.list.nodes, n`timerNode
      ensures Sound() && list == Without(old(list), n) && clock.list.nodes == old(clock.list.nodes)
      ensures Members(list) == old(Members(list)) - {n} && gone == old(gone) + {n} && n.cache.count == 0
    {
      MarkClosed(n);
      Destroy(n, turns);
    }

    /** One turn of mnet_fini's loop, for the first channel. */
    method FinishFirst(n: Channel, turns: nat) returns (done: bool, next: Channel?)
      requires Sound() && list != [] && n == list[0]
      modifies `delChanns, n`delNext, n`state, n`fd, n`mask
      modifies `channs, `channCount, `list, `gone, Members(list)`prev, Members(list)`next, n.cache
      modifies clock`channels, clock.list, clock.list.head, clock.list.nodes, n`timerNode
      ensures done <==> old(n.cache.count) == 0
      ensures done ==> Sound() && next == First(list) && list == old(list)[1..]
                       && clock.list.nodes == old(clock.list.nodes)
      ensures done ==> Members(list) == old(Members(list)) - {n} && gone == old(gone) + {n} && n.cache.count == 0
      ensures done ==> forall m :: m in Members(list) ==> m.cache.count == old(m.cache.count)
    {
      assert n.next == After(list, 0) && n in Members(list);
      next := n.next;
      done := TearDown(n, turns);
      if done {
        Retire(n, turns);
      }
    }

    /** mnet_fini: either every channel is destroyed, each once, or one with bytes cached is in the way. */
    method Finish(turns: nat) returns (done: bool)
      requires Valid()
      modifies `delChanns, Members(list)`delNext, Members(list)`state, Members(list)`fd, Members(list)`mask
      modifies `channs, `channCount, `list, `gone, Members(list)`prev, Members(list)`next, caches
      modifies clock`channels, clock.list, clock.list.head, clock.list.nodes, Members(list)`timerNode
      ensures done <==> forall n :: n in old(list) ==> old(n.cache.count) == 0
      ensures done ==> list == [] && channs == null && channCount == 0 && clock.list.items == [] && gone == born
    {
      var n := channs;
      while n != null
        invariant Sound() && n == First(list) && clock.list.nodes == old(clock.list.nodes)
        invariant Members(list) <= old(Members(list))
        invariant forall m :: m in old(Members(list)) && m !in Members(list) ==> old(m.cache.count) == 0
        invariant forall m :: m in Members(list) ==> m.cache.count == old(m.cache.count)
        decreases |list|
      {
        assert n in Members(list);
        done, n := FinishFirst(n, turns);
        if !done {
          return false;
        }
      }
      NobodyLeft();
      return true;
    }

    lemma NobodyLeft()
      requires Sound() && list == []
      ensures clock.list.items == [] && gone == born
    {
      assert forall x :: x in clock.list.items ==> clock.Mutual(x);
      EmptyIff(clock.list.items);
    }

    /** A connection, send, flush or switch on one of the channels. */
    method Perform(n: Channel, op: ChannelOp, turns: nat) returns (hung: bool)
      requires Valid() && n in list
      modifies `blocks, n`fd, n`state, n`mask, n`bytesSend, n`accepted, n`activeSendEvent, n.cache, n.cache.owned
      ensures Valid()
      ensures StreamChannel.Image(n) == LinkAfter(old(StreamChannel.Image(n)), op)
      ensures hung <==> Hangs(old(StreamChannel.Image(n)), op)
      ensures forall c :: c in Members(list) && c != n ==> StreamChannel.Image(c) == old(StreamChannel.Image(c))
      ensures forall b :: b in blocks ==> fresh(b) || b in old(blocks)
    {
      hung := PerformStream(n, op, turns);
    }

    method PerformStream(n: Channel, op: ChannelOp, turns: nat) returns (hung: bool)
      requires Streams() && Doomed(doomed) && n in list
      modifies `blocks, n`fd, n`state, n`mask, n`bytesSend, n`accepted, n`activeSendEvent, n.cache, n.cache.owned
      ensures Streams() && Doomed(doomed)
      ensures StreamChannel.Image(n) == LinkAfter(old(StreamChannel.Image(n)), op)
      ensures hung <==> Hangs(old(StreamChannel.Image(n)), op)
      ensures forall c :: c in Members(list) && c != n ==> StreamChannel.Image(c) == old(StreamChannel.Image(c))
      ensures forall b :: b in blocks ==> fresh(b) || b in old(blocks)
    {
      assert n in Members(list) && n.cache.owned <= blocks;
      hung := PerformIn(n, op, turns, Members(list), caches, blocks);
      blocks := blocks + n.cache.owned;
    }

    /** No drain is under way, and no timer of the last one is left. */
    ghost predicate AtEase()
      reads clock`tmPos, clock`tmCurrent, clock.list`items
    {
      clock.AtRest() && clock.DueNow() == []
    }

    /** mnet_chann_active_event for a timer; the cursor is lost exactly if it points at that timer. */
    method SetTimer(n: Channel, value: int, now: int, height: nat) returns (lost: bool)
      requires Valid() && clock.Ready() && n in list && now >= clock.tmCurrent && 1 <= height <= MAX_LEVEL
      modifies clock`timers, clock.timers, clock.list, clock.list.head, clock.list.nodes, n`timerNode
      ensures Valid() && (lost <==> !clock.Ready()) && (lost <==> n.state != Closed && old(TheHand()).cursor == n)
      ensures TheHand() == if n.state == Closed then old(TheHand()) else Retimed(old(TheHand()), n, value, now)
      ensures forall c :: c in Members(list) ==> StreamChannel.Image(c) == old(StreamChannel.Image(c))
      ensures forall x :: x in clock.list.nodes ==> fresh(x) || x in old(clock.list.nodes)
      ensures forall t :: t in clock.timers ==> fresh(t) || t in old(clock.timers)
    {
      lost := ClockSetTimer(n, value, now, height);
      assert Listed() == old(Listed());
      assert Streams() == old(Streams());
      assert Doomed(doomed) == old(Doomed(doomed));
    }

    /** The same, as far as the clock is concerned. */
    method ClockSetTimer(n: Channel, value: int, now: int, height: nat) returns (lost: bool)
      requires Timed() && clock.Ready() && n in clock.channels && now >= clock.tmCurrent && 1 <= height <= MAX_LEVEL
      modifies clock`timers, clock.timers, clock.list, clock.list.head, clock.list.nodes, n`timerNode
      ensures Timed() && (lost <==> !clock.Ready()) && (lost <==> n.state != Closed && old(TheHand()).cursor == n)
      ensures TheHand() == if n.state == Closed then old(TheHand()) else Retimed(old(TheHand()), n, value, now)
      ensures forall x :: x in clock.list.nodes ==> fresh(x) || x in old(clock.list.nodes)
      ensures forall t :: t in clock.timers ==> fresh(t) || t in old(clock.timers)
    {
      clock.CursorIs(n);
      clock.QueueMinus(n);
      lost := n.state != Closed && n.timerNode != null && n.timerNode == clock.tmPos;
      ghost var h, q := TheHand(), Minus(clock.DueNow(), n.timerNode);
      clock.SetTimer(n, value, now, height);
      if n.state != Closed {
        RetimedBy(h, n, value, now, q);
      }
    }

    /** What the clock has become, as a value. */
    lemma RetimedBy(h: Hand, n: Channel, value: int, now: int, q: seq<SkipNode>)
      requires clock.DueNow() == q && OwnersOf(q) == Without(h.due, n) && clock.Cursor() == h.cursor
      requires value > 0 ==> Sets(h.timers, clock.Table(), n, Entry(now + value * 1000, value * 1000))
      requires value <= 0 ==> Drops(h.timers, clock.Table(), n)
      ensures TheHand() == Retimed(h, n, value, now)
    {
      if value > 0 {
        SetsIs(h.timers, clock.Table(), n, Entry(now + value * 1000, value * 1000));
      } else {
        DropsIs(h.timers, clock.Table(), n);
      }
    }

    /** _tm_next: handles timers up to the first whose event gets past the filter. */
    method NextTimer(later: nat -> int, heights: nat -> nat, passes: nat -> bool)
      returns (message: Channel?, handled: seq<Channel>)
      requires Valid() && clock.Ready() && forall i :: later(i) >= clock.tmCurrent && 1 <= heights(i) <= MAX_LEVEL
      modifies clock`tmPos, clock.timers, clock.list, clock.list.head, clock.list.nodes, Members(list)`timerNode
      ensures Valid() && clock.Ready() && clock.tmCurrent == old(clock.tmCurrent)
      ensures Handles(old(TheHand()), TheHand(), handled, message, later, passes)
      ensures forall c :: c in Members(list) ==> StreamChannel.Image(c) == old(StreamChannel.Image(c))
      ensures forall x :: x in clock.list.nodes ==> fresh(x) || x in old(clock.list.nodes)
    {
      ghost var h, due := TheHand(), clock.DueNow();
      ghost var fired;
      message, handled, fired := clock.Next(later, heights, passes, 0);
      assert Listed() == old(Listed()) && Streams() == old(Streams()) && Doomed(doomed) == old(Doomed(doomed));
      HandledBy(h, Log(h.timers, due, handled, fired), message, later, passes);
    }

    /** What _tm_next has handled, in terms of channels. */
    lemma HandledBy(h: Hand, log: Log, message: Channel?, later: nat -> int, passes: nat -> bool)
      requires Timed() && clock.Ready() && h.timers == log.table && h.due == OwnersOf(log.due)
      requires Recorded(log, clock.Table(), clock.DueNow(), later, 0, clock.tmCurrent)
      requires Filtered(log.handled, message, passes, 0)
      requires if message == null then clock.DueNow() == [] && clock.AtRest() else message.timerNode != clock.tmPos
      ensures Handles(h, TheHand(), log.handled, message, later, passes)
    {
      RecordedOwners(log, clock.Table(), clock.DueNow(), later, 0, clock.tmCurrent);
      if clock.DueNow() != [] { clock.CursorFirst(); }
      if message != null {
        assert log.handled[|log.handled| - 1] in clock.Table();
        clock.CursorIs(message);
      }
    }

    /** The timer messages of a poll, if the caller does nothing in between. */
    method DrainTimers(now: nat -> int, heights: nat -> nat, passes: nat -> bool)
      returns (messages: seq<Channel>, handled: seq<Channel>)
      requires Valid() && clock.Ready() && forall i :: now(i) >= clock.tmCurrent && 1 <= heights(i) <= MAX_LEVEL
      modifies clock`tmPos, clock`timers, clock.timers, clock.list, clock.list.head, clock.list.nodes,
               Members(list)`timerNode
      ensures Valid() && AtEase()
      ensures forall x :: x in clock.list.nodes ==> fresh(x) || x in old(clock.list.nodes)
      ensures forall t :: t in clock.timers ==> fresh(t) || t in old(clock.timers)
      ensures handled == old(clock.Queue()) && messages == Passed(handled, passes, 0)
      ensures Refired(old(clock.Table()), clock.Table(), handled, now, 0)
    {
      messages, handled := clock.DrainAlone(now, heights, passes);
      assert Listed() == old(Listed()) && Streams() == old(Streams()) && Doomed(doomed) == old(Doomed(doomed));
    }

    /** The i-th channel of the list, if there are so many. */
    lemma {:induction false} NthIs(k: nat, i: nat)
      requires Listed() && k <= |list|
      ensures Walk(if k < |list| then list[k] else null, i) == if k + i < |list| then list[k + i] else null
      decreases i
    {
      if k < |list| && i > 0 {
        assert list[k].next == After(list, k);
        NthIs(k + 1, i - 1);
      }
    }
  }

  /** What i steps along the list lead to. */
  function Walk(n: Channel?, i: nat): Channel?
    reads *
  {
    if n == null || i == 0 then n else Walk(n.next, i - 1)
  }

  /** The list, the timers, and the channels destroyed. */
  datatype Roll = Roll(list: seq<Channel>, timers: Deadlines, gone: set<Channel>)

  /** One channel less. */
  ghost function Struck(r: Roll, n: Channel): Roll {
    Roll(Without(r.list, n), r.timers - {n}, r.gone + {n})
  }

  /** Of the channels of `q` those not in `rest` are gone, and no other. */
  ghost predicate Swept(r0: Roll, r: Roll, q: seq<Channel>, rest: seq<Channel>) {
    var away := Members(q) - Members(rest);
    && NoDup(r0.list) && Members(rest) <= Members(q) && Members(q) <= Members(r0.list)
    && r.list == Except(r0.list, away) && r.timers == r0.timers - away && r.gone == r0.gone + away
    && Members(r.list) == Members(r0.list) - away && |r.list| == |r0.list| - |q| + |rest|
  }

  lemma SweptNone(r: Roll, q: seq<Channel>)
    requires Distinct(r.list) && Members(q) <= Members(r.list)
    ensures Swept(r, r, q, q)
  {
    NoDupIndex(r.list);
    ExceptNone(r.list);
    assert Members(q) - Members(q) == {};
  }

  lemma SweptAll(r0: Roll, r: Roll, q: seq<Channel>)
    requires Swept(r0, r, q, [])
    ensures r == Roll(Except(r0.list, Members(q)), r0.timers - Members(q), r0.gone + Members(q))
    ensures Members(r.list) == Members(r0.list) - Members(q)
  {
    assert Members(q) - Members([]) == Members(q);
  }

  lemma SweptNext(r0: Roll, r: Roll, q: seq<Channel>, rest: seq<Channel>)
    requires Swept(r0, r, q, rest) && rest != [] && Distinct(rest) && DelLinked(rest) && Distinct(r.list)
    ensures Swept(r0, Struck(r, rest[0]), q, rest[1..])
  {
    var n, away := rest[0], Members(q) - Members(rest);
    DelTail(rest);
    assert Members(q) - Members(rest[1..]) == away + {n};
    ExceptNext(r0.list, away, n);
    assert n in Members(r.list);
    MembersWithout(r.list, n);
  }

  lemma MembersWithout(q: seq<Channel>, n: Channel)
    requires Distinct(q) && n in q
    ensures Members(Without(q, n)) == Members(q) - {n} && |Without(q, n)| == |q| - 1
  {
    var a, b := Around(q, n);
  }

  lemma DelPush(n: Channel, q: seq<Channel>)
    requires Distinct(q) && DelLinked(q) && n !in q && n.delNext == First(q)
    ensures Distinct([n] + q) && DelLinked([n] + q) && Members([n] + q) == Members(q) + {n}
  {
    var r := [n] + q;
    forall i | 0 <= i < |r| ensures r[i].delNext == After(r, i) {
      if i > 0 { assert r[i] == q[i - 1] && q[i - 1].delNext == After(q, i - 1); }
    }
  }

  lemma DelTail(q: seq<Channel>)
    requires q != [] && Distinct(q) && DelLinked(q)
    ensures q[0].delNext == First(q[1..]) && Distinct(q[1..]) && DelLinked(q[1..])
    ensures q[0] in Members(q) && Members(q[1..]) == Members(q) - {q[0]}
  {
    var t := q[1..];
    assert q[0].delNext == After(q, 0);
    forall i | 0 <= i < |t| ensures t[i].delNext == After(t, i) {
      assert t[i] == q[i + 1] && q[i + 1].delNext == After(q, i + 1);
    }
    forall n ensures n in Members(t) <==> n in Members(q) - {q[0]} {
      if n in t {
        var i :| 0 <= i < |t| && t[i] == n;
        assert q[i + 1] == n;
      }
      assert n in q <==> n == q[0] || n in t;
    }
  }

  lemma Around(q: seq<Channel>, n: Channel) returns (a: seq<Channel>, b: seq<Channel>)
    requires Distinct(q) && n in q
    ensures q == a + [n] + b && Distinct(a + b) && Without(q, n) == a + b
    ensures Members(a + b) == Members(q) - {n}
  {
    NoDupIndex(q);
    a, b := Parts(q, n);
    NoDupIndex(a + b);
  }
}
