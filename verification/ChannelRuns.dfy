/**
 Whole runs of a program between mnet_init and mnet_fini: opening and accepting,
 connecting, sending and flushing, setting timers, closing, polling, and
 fetching timer messages one at a time, in any order. Every run does what the
 abstract machine does.
 */
module ChannelRuns {
  import opened MnetData
  import opened ChannelSpec
  import opened MnetSpec
  import opened ChannelTable
  import ChannelViews

  /** Nothing but new objects has come in. */
  twostate predicate Grown(m: Mnet)
    reads m, m.clock, m.clock.list
  {
    forall o :: o in m.Footprint() ==> fresh(o) || o in old(m.Footprint())
  }

  twostate lemma GrownIf(m: Mnet)
    requires forall x :: x in m.clock.list.nodes ==> fresh(x) || x in old(m.clock.list.nodes)
    requires forall t :: t in m.clock.timers ==> fresh(t) || t in old(m.clock.timers)
    requires forall n :: n in Members(m.list) ==> fresh(n) || n in old(Members(m.list))
    requires forall c :: c in m.caches ==> fresh(c) || c in old(m.caches)
    requires forall b :: b in m.blocks ==> fresh(b) || b in old(m.blocks)
    ensures Grown(m)
  {
  }

  method OpenOne(m: Mnet, op: Op) returns (r: Reply)
    requires ChannelViews.Left(m, Fine) && (op.Open? || (op.Accept? && op.fd > 0))
    modifies m.Footprint()
    ensures ChannelViews.Left(m, r.fate) && Grown(m) && m.clock.tmCurrent == old(m.clock.tmCurrent)
    ensures Does(old(m.Now()), op, m.Now(), r)
  {
    r := ChannelViews.Open(m, op);
    GrownIf(m);
  }

  method ActOn(m: Mnet, ghost i: nat, n: Channel, op: ChannelOp, turns: nat) returns (r: Reply)
    requires ChannelViews.Left(m, Fine) && i < |m.list| && n == m.list[i]
    modifies m.Footprint()
    ensures ChannelViews.Left(m, r.fate) && Grown(m) && m.clock.tmCurrent == old(m.clock.tmCurrent)
    ensures Does(old(m.Now()), On(i, op), m.Now(), r)
  {
    assert n in Members(m.list) && n.cache in m.caches && n.cache.owned <= m.blocks;
    ghost var v := m.Now();
    var hung := ChannelViews.Act(m, n, op, turns);
    GrownIf(m);
    DoesOn(v, i, op, m.Now(), hung);
    r := Ended(hung);
  }

  method CloseOn(m: Mnet, ghost i: nat, n: Channel, turns: nat) returns (r: Reply)
    requires ChannelViews.Left(m, Fine) && i < |m.list| && n == m.list[i]
    modifies m.Footprint()
    ensures ChannelViews.Left(m, r.fate) && Grown(m) && m.clock.tmCurrent == old(m.clock.tmCurrent)
    ensures Does(old(m.Now()), Op.Close(i), m.Now(), r)
  {
    assert n in Members(m.list) && n.cache in m.caches;
    ghost var v := m.Now();
    var hung := ChannelViews.Close(m, n, turns);
    GrownIf(m);
    DoesClose(v, i, m.Now(), hung);
    r := Ended(hung);
  }

  method TimerOn(m: Mnet, ghost i: nat, n: Channel, value: int, now: int, height: nat) returns (r: Reply)
    requires ChannelViews.Left(m, Fine) && i < |m.list| && n == m.list[i]
    requires now >= m.clock.tmCurrent && 1 <= height <= MAX_LEVEL
    modifies m.Footprint()
    ensures ChannelViews.Left(m, r.fate) && Grown(m) && m.clock.tmCurrent == old(m.clock.tmCurrent)
    ensures Does(old(m.Now()), Op.SetTimer(i, value, now, height), m.Now(), r)
  {
    assert n in Members(m.list) && m.Links()[n].state == n.state;
    ghost var v := m.Now();
    var fate := ChannelViews.SetTimer(m, n, value, now, height);
    GrownIf(m);
    DoesSetTimer(v, i, value, now, height, m.Now(), fate);
    r := Quiet.(fate := fate);
  }

  method PollOne(m: Mnet, now: int, turns: nat) returns (r: Reply)
    requires ChannelViews.Left(m, Fine) && now >= m.clock.tmCurrent
    modifies m.Footprint()
    ensures ChannelViews.Left(m, r.fate) && Grown(m) && m.clock.tmCurrent <= now
    ensures Does(old(m.Now()), Op.Poll(now), m.Now(), r)
  {
    ChannelViews.Poll(m, now, turns);
    GrownIf(m);
    r := Quiet;
  }

  method TellOne(m: Mnet, op: Op) returns (r: Reply)
    requires ChannelViews.Left(m, Fine) && op.NextTimer?
    requires forall i :: op.later(i) >= m.clock.tmCurrent && 1 <= op.heights(i) <= MAX_LEVEL
    modifies m.Footprint()
    ensures ChannelViews.Left(m, r.fate) && Grown(m) && m.clock.tmCurrent == old(m.clock.tmCurrent)
    ensures Does(old(m.Now()), op, m.Now(), r)
  {
    r := ChannelViews.NextTimer(m, op);
    GrownIf(m);
  }

  /** A call about the i-th channel, if there is one. */
  method StepAt(m: Mnet, op: Op, turns: nat) returns (r: Reply)
    requires ChannelViews.Left(m, Fine) && Possible(op) && Since(op, m.clock.tmCurrent)
    requires op.On? || op.SetTimer? || op.Close?
    modifies m.Footprint()
    ensures ChannelViews.Left(m, r.fate) && Grown(m) && Does(old(m.Now()), op, m.Now(), r)
    ensures m.clock.tmCurrent == old(m.clock.tmCurrent)
  {
    m.NthIs(0, op.i);
    var n := Walk(m.channs, op.i);
    if n == null {
      DoesNothing(m.Now(), op);
      return Quiet;
    }
    match op
    case On(i, o) => r := ActOn(m, i, n, o, turns);
    case SetTimer(i, value, now, height) => r := TimerOn(m, i, n, value, now, height);
    case Close(i) => r := CloseOn(m, i, n, turns);
  }

  /** One call. */
  method Step(m: Mnet, op: Op, turns: nat) returns (r: Reply)
    requires ChannelViews.Left(m, Fine) && Possible(op) && Since(op, m.clock.tmCurrent)
    modifies m.Footprint()
    ensures ChannelViews.Left(m, r.fate) && Grown(m) && Does(old(m.Now()), op, m.Now(), r)
    ensures if op.Poll? then m.clock.tmCurrent <= op.now else m.clock.tmCurrent == old(m.clock.tmCurrent)
  {
    match op
    case Open => r := OpenOne(m, op);
    case Accept(_) => r := OpenOne(m, op);
    case Poll(now) => r := PollOne(m, now, turns);
    case NextTimer(_, _, _) => r := TellOne(m, op);
    case _ => r := StepAt(m, op, turns);
  }

  /**
   A run, up to its end or to the first call that never comes back or loses the timer cursor. The views it
   goes through, one more than the calls made, are those of the abstract machine with the same calls.
   */
  method Run(ops: seq<Op>, turns: nat) returns (m: Mnet, replies: seq<Reply>, ghost views: seq<View>)
    requires Timely(ops) && forall op :: op in ops ==> Possible(op)
    ensures m.Valid() && Ran(views, ops, replies) && m.Now() == views[|replies|]
    ensures |replies| < |ops| ==> replies != [] && replies[|replies| - 1].fate != Fine
  {
    m := new Mnet();
    replies, views := Steps(m, ops, turns);
  }

  /** Calls made so far, and whether to go on. */
  ghost predicate SoFar(m: Mnet, ops: seq<Op>, replies: seq<Reply>, views: seq<View>, going: bool)
    reads m, m.clock, m.list`state, m.list`accepted, m.list`activeSendEvent, CachesOf(m.list)`blocks
    reads m.clock.channels`timerNode, m.clock.timers, m.clock.list`items
  {
    && Ran(views, ops, replies) && m.Now() == views[|replies|]
    && (if going then GoingOn(replies) && forall j :: |replies| <= j < |ops| ==> Since(ops[j], m.clock.tmCurrent)
        else replies != [] && replies[|replies| - 1].fate != Fine)
  }

  method Advance(m: Mnet, ops: seq<Op>, turns: nat, replies: seq<Reply>, ghost views: seq<View>)
    returns (r: Reply, ghost v: View)
    requires ChannelViews.Left(m, Fine) && SoFar(m, ops, replies, views, true) && |replies| < |ops|
    requires Timely(ops) && Possible(ops[|replies|])
    modifies m.Footprint()
    ensures ChannelViews.Left(m, r.fate) && Grown(m)
    ensures SoFar(m, ops, replies + [r], views + [v], r.fate == Fine)
  {
    r := Step(m, ops[|replies|], turns);
    v := m.Now();
    RanNext(views, ops, replies, v, r);
  }

  method Steps(m: Mnet, ops: seq<Op>, turns: nat) returns (replies: seq<Reply>, ghost views: seq<View>)
    requires ChannelViews.Left(m, Fine) && m.Now() == Empty && m.clock.tmCurrent == 0
    requires Timely(ops) && forall op :: op in ops ==> Possible(op)
    modifies m.Footprint()
    ensures m.Valid() && Ran(views, ops, replies) && m.Now() == views[|replies|]
    ensures |replies| < |ops| ==> replies != [] && replies[|replies| - 1].fate != Fine
  {
    replies, views := [], [Empty];
    var fate := Fine;
    while |replies| < |ops| && fate == Fine
      invariant ChannelViews.Left(m, fate) && Grown(m)
      invariant SoFar(m, ops, replies, views, fate == Fine)
      decreases |ops| - |replies|
    {
      assert ops[|replies|] in ops;
      var r;
      ghost var v;
      r, v := Advance(m, ops, turns, replies, views);
      fate, replies, views := r.fate, replies + [r], views + [v];
    }
  }

  /** A channel closed on the message of another, both timers being due, still gets its own message. */
  method TellsClosed() returns (m: Mnet, replies: seq<Reply>)
    ensures m.Valid() && |replies| == 8 && replies[7].message != null
    ensures replies[7].message in m.Links() && m.Links()[replies[7].message].state == Closed
  {
    var later, heights, passes := (i: nat) => 5000, (i: nat) => 1, (i: nat) => true;
    var ops := ClosingRun(later, heights, passes);
    ghost var views;
    m, replies, views := Run(ops, 0);
    ToldAboutClosed(views, ops, replies, later, heights, passes);
  }
}
