/**
 Sending on a stream channel: what the system does not take at once is cached,
 and the channel asks to be told when it can write for as long as that is so.
 No system call fails here except where its answer is a parameter.
 */
module StreamChannel {
  import opened Basics
  import opened SendBuffer
  import opened StreamSpec
  import opened MnetData
  import opened ChannelSpec

  // ----- the invariant

  /** The channel asks to write when it has something cached, and otherwise only on the caller's request. */
  ghost predicate Interested(n: Channel)
    reads n`state, n`mask, n`activeSendEvent, n.cache`count
  {
    && (n.state == Connected && n.cache.count > 0 ==> EpollOut in n.mask)
    && (n.state == Connected && EpollOut in n.mask ==> n.cache.count > 0 || n.activeSendEvent)
  }

  /** A channel that is not connected has nothing cached; one without a socket asks for nothing. */
  ghost predicate Quiet(n: Channel)
    reads n`state, n`mask, n`fd, n.cache`count
  {
    && (n.state != Connected && n.state != Listening ==> n.cache.count == 0)
    && (n.state == Disconnected ==> n.mask == {})
    && (n.state != Closed && n.state != Disconnected ==> n.fd > 0)
  }

  ghost predicate Valid(n: Channel)
    reads n`state, n`mask, n`activeSendEvent, n`fd, n`bytesSend, n`accepted, n.cache, n.cache.owned
  {
    n.cache.Valid() && Interested(n) && Quiet(n) && n.bytesSend == |n.accepted|
  }

  /** The bytes the system has taken, and what is cached. */
  ghost function Line(n: Channel): Wire
    reads n`accepted, n.cache`blocks
  {
    Wire(n.accepted, n.cache.blocks)
  }

  // ----- interest

  datatype EventSet = SetRead | SetWrite

  /** _evt_add, the epoll branch. */
  method EvtAdd(n: Channel, which: EventSet)
    modifies n`mask
    ensures n.mask == old(n.mask) + {EpollRdhup, EpollHup} + {if which == SetRead then EpollIn else EpollOut}
  {
    var events := {};
    if which == SetRead {
      events := n.mask + {EpollIn, EpollRdhup, EpollHup};
    } else {
      events := n.mask + {EpollOut, EpollRdhup, EpollHup};
    }
    n.mask := events;
  }

  /** _evt_del, the epoll branch. */
  method EvtDel(n: Channel, which: EventSet)
    modifies n`mask
    ensures n.mask == old(n.mask) - {if which == SetRead then EpollIn else EpollOut}
  {
    var events := {};
    if which == SetRead {
      events := n.mask - {EpollIn};
    } else {
      events := n.mask - {EpollOut};
    }
    n.mask := events;
  }

  // ----- connection

  /**
   _chann_disconnect_socket, giving its inner loop `turns` turns. It gets through exactly when
   nothing is cached; with bytes cached it never does.
   */
  method Disconnect(n: Channel, turns: nat) returns (done: bool)
    requires Valid(n)
    modifies n`fd, n`state, n`mask, n.cache
    ensures Valid(n) && Line(n) == old(Line(n)) && n.cache.count == old(n.cache.count) &&
            n.cache.owned == old(n.cache.owned)
    ensures done <==> old(n.cache.count) == 0
    ensures !done ==> n.state == old(n.state) && n.fd == old(n.fd) && n.mask == old(n.mask)
    ensures done ==> n.state == if old(n.state) == Closed then Closed else Disconnected
  {
    if n.fd > 0 && n.state != Closed && n.state != Disconnected {
      var over := n.cache.Destroy(turns);
      if !over {
        return false;
      }
      n.fd := -1;
      n.state := Disconnected;
      n.mask := {};
    }
    return true;
  }

  /** mnet_chann_connect, once the socket is there. */
  method Connect(n: Channel, fd: int)
    requires Valid(n) && n.state == Disconnected && fd > 0
    modifies n`fd, n`state, n`mask
    ensures Valid(n) && n.state == Connecting && EpollOut in n.mask
  {
    n.fd := fd;
    n.state := Connecting;
    EvtAdd(n, SetWrite);
  }

  /** The caller will be told that it can send, if it wants to. */
  ghost predicate Noticed(n: Channel)
    reads n`state, n`activeSendEvent, n`mask
  {
    n.state == Connected && n.activeSendEvent ==> EpollOut in n.mask
  }

  /**
   The end of a connection attempt that worked. A caller that wanted to be told when it can send,
   and asked for that on an earlier connection, is not told on this one.
   */
  method OnConnected(n: Channel)
    requires Valid(n) && n.state == Connecting
    modifies n`state, n`mask
    ensures Valid(n) && n.state == Connected && n.mask == old(n.mask) - {EpollOut} + {EpollIn, EpollRdhup, EpollHup}
    ensures Noticed(n) <==> !n.activeSendEvent
  {
    EvtDel(n, SetWrite);
    EvtAdd(n, SetRead);
    n.state := Connected;
  }

  /** _chann_accept: a channel for a connection that is there already. */
  method Accept(fd: int) returns (n: Channel)
    requires fd > 0
    ensures Valid(n) && fresh(n) && fresh(n.cache) && n.state == Connected && Noticed(n)
    ensures Line(n) == Wire([], []) && n.cache.count == 0 && n.cache.owned == {} && !n.activeSendEvent
    ensures n.prev == null && n.timerNode == null
  {
    n := new Channel(Connected);
    n.fd := fd;
    EvtAdd(n, SetRead);
  }

  // ----- sending

  /** _chann_send; `answer` is what the system makes of it, and it takes no more than it is offered. */
  method SendRaw(n: Channel, buf: seq<Byte>, answer: int) returns (ret: int)
    modifies n`bytesSend, n`accepted
    ensures ret == if answer > |buf| then |buf| else answer
    ensures n.accepted == old(n.accepted) + if ret > 0 then buf[..ret] else []
    ensures n.bytesSend == old(n.bytesSend) + if ret > 0 then ret else 0
  {
    ret := if answer > |buf| then |buf| else answer;
    if ret > 0 {
      n.bytesSend := n.bytesSend + ret;
      n.accepted := n.accepted + buf[..ret];
    }
  }

  /** mnet_chann_send. */
  method Send(n: Channel, buf: seq<Byte>, answer: int) returns (r: int)
    requires Valid(n)
    modifies n`fd, n`state, n`mask, n`bytesSend, n`accepted, n.cache, n.cache.owned
    ensures Valid(n) && (old(Noticed(n)) ==> Noticed(n))
    ensures r == if buf == [] || !Sendable(old(n.state)) || Refused(old(Line(n)), buf, answer) then -1 else |buf|
    ensures r == -1 ==> Line(n) == old(Line(n))
    ensures r != -1 ==> Line(n) == Given(old(Line(n)), buf, AtLeastZero(answer))
    ensures n.state == if buf != [] && Sendable(old(n.state)) && r == -1 then Disconnected else old(n.state)
    ensures forall b :: b in n.cache.owned ==> fresh(b) || b in old(n.cache.owned)
  {
    if buf == [] || !Sendable(n.state) {
      return -1;
    }
    n.cache.Facts();
    if n.cache.count > 0 {
      n.cache.Cache(buf);
      return |buf|;
    }
    r := SendFirst(n, buf, answer);
  }

  /** The branch of mnet_chann_send for an empty cache. */
  method SendFirst(n: Channel, buf: seq<Byte>, answer: int) returns (r: int)
    requires Valid(n) && n.cache.count == 0 && n.cache.blocks == [] && buf != [] && Sendable(n.state)
    modifies n`fd, n`state, n`mask, n`bytesSend, n`accepted, n.cache, n.cache.owned
    ensures Valid(n) && (old(Noticed(n)) ==> Noticed(n))
    ensures r == if answer < 0 then -1 else |buf|
    ensures r == -1 ==> Line(n) == old(Line(n)) && n.state == Disconnected
    ensures r != -1 ==> Line(n) == Given(old(Line(n)), buf, answer) && n.state == old(n.state)
    ensures forall b :: b in n.cache.owned ==> fresh(b) || b in old(n.cache.owned)
  {
    r := SendRaw(n, buf, answer);
    if r < 0 {
      var _ := Disconnect(n, 0);
      return -1;
    }
    if r < |buf| {
      n.cache.Cache(buf[r..]);
      r := |buf|;
      EvtAdd(n, SetWrite);
    }
  }

  // ----- flushing

  /** One turn of the loop in _chann_sended_rwb, for an answer that is no refusal. */
  method FlushStep(n: Channel, answer: nat) returns (again: bool)
    requires n.cache.Valid() && n.bytesSend == |n.accepted| && n.cache.count > 0
    modifies n`bytesSend, n`accepted, n.cache, n.cache.owned
    ensures n.cache.Valid() && n.bytesSend == |n.accepted| && n.cache.owned == old(n.cache.owned)
    ensures old(n.cache.blocks) != []
    ensures var bs := old(n.cache.blocks);
            if answer < |bs[0]|
            then Line(n) == Wire(old(n.accepted) + bs[0][..answer], [bs[0][answer..]] + bs[1..]) && !again
            else Line(n) == Wire(old(n.accepted) + bs[0], bs[1..]) && (again <==> |bs| > 1)
  {
    n.cache.Facts();
    var buf := n.cache.Front();
    ghost var bs := n.cache.blocks;
    var ret := SendRaw(n, buf, answer);
    DrainedFirst(bs, ret);
    if ret > 0 {
      n.cache.Drain(ret);
    }
    n.cache.Facts();
    again := ret > 0 && ret >= |buf| && n.cache.count > 0;
  }

  lemma DrainedFirst(bs: Blocks, n: nat)
    requires bs != [] && bs[0] != [] && n <= |bs[0]|
    ensures Drained(bs, n) == if n < |bs[0]| then [bs[0][n..]] + bs[1..] else bs[1..]
  {
    if n == 0 { assert bs == [bs[0][0..]] + bs[1..]; }
  }

  /** _chann_sended_rwb. */
  method Flushes(n: Channel, answers: nat -> int, turns: nat) returns (r: Flushed)
    requires Valid(n) && n.state == Connected
    modifies n`fd, n`state, n`mask, n`bytesSend, n`accepted, n.cache, n.cache.owned
    ensures n.cache.Valid() && n.bytesSend == |n.accepted| && n.cache.owned == old(n.cache.owned)
    ensures n.fd == old(n.fd) && n.state == Connected && n.mask == old(n.mask)
    ensures Line(n) == Flushing(old(Line(n)), answers) && r == Flush(old(n.cache.blocks), answers, 0).outcome
    ensures n.cache.count > 0 ==> old(n.cache.count) > 0
  {
    n.cache.Facts();
    if n.cache.count <= 0 {
      return Sent(true);
    }
    var i, again := 0, true;
    while again
      invariant n.cache.Valid() && n.bytesSend == |n.accepted| && n.cache.owned == old(n.cache.owned)
      invariant n.fd == old(n.fd) && n.state == Connected && n.mask == old(n.mask)
      invariant again ==> n.cache.count > 0
      invariant Onward(old(Line(n)), Line(n), answers, i, again)
      decreases |n.cache.blocks|, again
    {
      if answers(i) < 0 {
        assert Valid(n);
        n.cache.Facts();
        var done := Disconnect(n, turns);
        assert !done;
        OnwardStuck(old(Line(n)), Line(n), answers, i);
        return Stuck;
      }
      OnwardNext(old(Line(n)), Line(n), answers, i);
      again := FlushStep(n, answers(i));
      i := i + 1;
    }
    n.cache.Facts();
    OnwardEnd(old(Line(n)), Line(n), answers, i);
    return Sent(n.cache.count <= 0);
  }

  /** A write event on a connected channel; `told` says whether the caller may hear of it. */
  method OnWritable(n: Channel, answers: nat -> int, turns: nat) returns (r: Flushed, told: bool)
    requires Valid(n) && n.state == Connected
    modifies n`fd, n`state, n`mask, n`bytesSend, n`accepted, n.cache, n.cache.owned
    ensures Valid(n) && n.state == Connected && (old(Noticed(n)) ==> Noticed(n)) && n.cache.owned == old(n.cache.owned)
    ensures Line(n) == Flushing(old(Line(n)), answers) && r == Flush(old(n.cache.blocks), answers, 0).outcome
    ensures r == Stuck <==> exists k: nat :: RefusedAt(old(n.cache.blocks), answers, 0, k)
    ensures told <==> r == Sent(true) && n.activeSendEvent
  {
    told := false;
    n.cache.Facts();
    StuckIff(n.cache.blocks, answers, 0);
    AllSentIff(n.cache.blocks, answers, 0);
    r := Flushes(n, answers, turns);
    n.cache.Facts();
    if r == Sent(true) {
      if n.activeSendEvent {
        told := true;
      } else {
        EvtDel(n, SetWrite);
      }
    }
  }

  /** mnet_chann_active_event for send events. */
  method SetSendEvent(n: Channel, value: bool)
    requires Valid(n)
    modifies n`activeSendEvent, n`mask
    ensures Valid(n) && (old(Noticed(n)) ==> Noticed(n))
    ensures n.activeSendEvent == if n.state == Connected then value else old(n.activeSendEvent)
    ensures n.state == Connected && value != old(n.activeSendEvent) ==>
            (EpollOut in n.mask <==> value || n.cache.count > 0)
  {
    if n.state == Connected && n.activeSendEvent != value {
      n.activeSendEvent := value;
      if value {
        EvtAdd(n, SetWrite);
      } else if n.cache.Cached() <= 0 {
        EvtDel(n, SetWrite);
      }
    }
  }

  // ----- a connection's whole traffic

  method StepStream(n: Channel, op: StreamOp) returns (fate: Fate)
    requires Valid(n) && n.state == Connected
    modifies n`fd, n`state, n`mask, n`bytesSend, n`accepted, n`activeSendEvent, n.cache, n.cache.owned
    ensures Valid(n) && (n.state == if fate == Down then Disconnected else Connected)
    ensures Conn(Line(n), fate) == Step(Conn(old(Line(n)), Open), op)
    ensures forall b :: b in n.cache.owned ==> fresh(b) || b in old(n.cache.owned)
  {
    match op
    case Give(buf, answer) =>
      var r := Send(n, buf, answer);
      fate := if n.state == Connected then Open else Down;
    case Writable(answers) =>
      var r, told := OnWritable(n, answers, 0);
      fate := if r == Stuck then Hung else Open;
    case Notify(value) =>
      SetSendEvent(n, value);
      fate := Open;
  }

  method RunStream(n: Channel, ops: seq<StreamOp>) returns (fate: Fate)
    requires Valid(n) && n.state == Connected
    modifies n`fd, n`state, n`mask, n`bytesSend, n`accepted, n`activeSendEvent, n.cache, n.cache.owned
    ensures Valid(n) && (n.state == if fate == Down then Disconnected else Connected)
    ensures Conn(Line(n), fate) == Run(Conn(old(Line(n)), Open), ops)
    decreases |ops|
  {
    fate := Open;
    if ops != [] {
      fate := StepStream(n, ops[0]);
      if fate == Open {
        fate := RunStream(n, ops[1..]);
      } else {
        RunStops(Conn(Line(n), fate), ops[1..]);
      }
    }
  }

  /**
   However sends and flushes interleave, the system has taken exactly what its answers say, that and what
   is cached is all that was handed over, in order, and there is write interest while there is anything cached.
   */
  method Traffic(n: Channel, ops: seq<StreamOp>) returns (fate: Fate)
    requires Valid(n) && n.state == Connected
    modifies n`fd, n`state, n`mask, n`bytesSend, n`accepted, n`activeSendEvent, n.cache, n.cache.owned
    ensures Valid(n) && Conn(Line(n), fate) == Run(Conn(old(Line(n)), Open), ops) && n.bytesSend == |n.accepted|
    ensures n.accepted + Flat(n.cache.blocks) ==
            old(n.accepted + Flat(n.cache.blocks)) + Bytes(Conn(old(Line(n)), Open), ops)
    ensures n.cache.blocks != [] ==> EpollOut in n.mask
  {
    RunConserves(Conn(Line(n), Open), ops);
    fate := RunStream(n, ops);
    n.cache.Facts();
  }

  // ----- any of it, in any state

  /** The channel's sending side as a value. */
  ghost function Image(n: Channel): Link
    reads n`state, n`accepted, n`activeSendEvent, n.cache`blocks
  {
    Link(n.state, Line(n), n.activeSendEvent)
  }

  /** Whatever happens to a channel in its state; `hung` says that the call never came back. */
  method Perform(n: Channel, op: ChannelOp, turns: nat) returns (hung: bool)
    requires Valid(n)
    modifies n`fd, n`state, n`mask, n`bytesSend, n`accepted, n`activeSendEvent, n.cache, n.cache.owned
    ensures Valid(n) && (n.state == Closed <==> old(n.state) == Closed)
    ensures Image(n) == LinkAfter(old(Image(n)), op) && (hung <==> Hangs(old(Image(n)), op))
    ensures forall b :: b in n.cache.owned ==> fresh(b) || b in old(n.cache.owned)
  {
    hung := false;
    n.cache.Facts();
    match op
    case DoConnect(fd) =>
      if n.state == Disconnected && fd > 0 {
        Connect(n, fd);
      }
    case DoConnected =>
      if n.state == Connecting {
        OnConnected(n);
      }
    case DoSend(buf, answer) => var _ := Send(n, buf, answer);
    case DoWritable(answers) =>
      if n.state == Connected {
        var r, told := OnWritable(n, answers, turns);
        hung := r == Stuck;
      }
    case DoNotify(value) => SetSendEvent(n, value);
    case DoDisconnect =>
      var done := Disconnect(n, turns);
      hung := !done;
  }

  // ----- two runs that end badly

  /** A caller that asked to be told when it can send is not told after a reconnect. */
  method SwitchForgotten() returns (n: Channel)
    ensures Valid(n) && n.state == Connected && n.activeSendEvent && !Noticed(n)
  {
    n := Accept(1);
    SetSendEvent(n, true);
    var done := Disconnect(n, 0);
    assert done;
    Connect(n, 2);
    OnConnected(n);
  }

  /** A byte that the system did not take keeps the channel from ever being disconnected. */
  method DisconnectHangs(turns: nat) returns (n: Channel, done: bool)
    ensures Valid(n) && n.state == Connected && n.accepted == [1] && n.cache.blocks == [[2]] && !done
  {
    n := Accept(1);
    var r := Send(n, [1, 2], 1);
    assert [1, 2][..1] == [1] && [1, 2][1..] == [2] && r == 2;
    n.cache.Facts();
    done := Disconnect(n, turns);
  }

  /** And a flush that the system then refuses never comes back. */
  method FlushHangs(turns: nat) returns (n: Channel, r: Flushed)
    ensures Valid(n) && n.cache.blocks == [[2]] && r == Stuck
  {
    n := Accept(1);
    var sent := Send(n, [1, 2], 1);
    assert [1, 2][1..] == [2] && sent == 2;
    var told;
    r, told := OnWritable(n, (i: nat) => -1, turns);
  }
}
