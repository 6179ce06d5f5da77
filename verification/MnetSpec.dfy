/**
 The event core as an abstract machine: what each call of a program does to the
 channels, their streams and their timers, and what that means over whole runs.
 */
module MnetSpec {
  import opened Basics
  import opened SendBuffer
  import opened MnetData
  import opened QueueSpec
  import StreamSpec
  import opened ChannelSpec
  import opened TimerSpec

  /**
   The channels in the order of the list, their sending sides, the channels destroyed, the timers, the
   channels whose timer is due and not handled yet, and the channel whose timer the cursor points at.
   */
  datatype View = View(list: seq<Channel>, links: map<Channel, Link>, gone: set<Channel>, hand: Hand)

  const Empty := View([], map[], {}, Hand(map[], [], null))

  /** Channels are named by their place in the list. */
  datatype Op =
    | Open
    | Accept(fd: int)
    | On(i: nat, op: ChannelOp)
    | SetTimer(i: nat, value: int, now: int, height: nat)
    | Close(i: nat)
    | Poll(now: int)
    | NextTimer(later: nat -> int, heights: nat -> nat, passes: nat -> bool)

  /** A call comes back, or never does, or it leaves the timer cursor on a node taken out. */
  datatype Fate = Fine | Hung | Lost

  /** How a call went, the channel it made, the channels whose timers it handled, the one told to the caller. */
  datatype Reply = Reply(fate: Fate, made: Channel?, handled: seq<Channel>, message: Channel?)

  const Quiet := Reply(Fine, null, [], null)

  // ----- the steps

  ghost predicate Makes(v: View, v': View, r: Reply, state: ChannelState) {
    && r.made != null && r == Reply(Fine, r.made, [], null) && r.made !in v.links && r.made !in v.gone
    && v' == v.(list := [r.made] + v.list, links := v.links[r.made := Link(state, StreamSpec.Wire([], []), false)])
  }

  ghost function ClosedIn(v: View): set<Channel> {
    set n | n in v.links && v.links[n].state == Closed
  }

  /** Setting or dropping a channel's timer. */
  ghost function Retimed(h: Hand, n: Channel, value: int, now: int): Hand {
    h.(timers := if value > 0 then h.timers[n := Entry(now + value * 1000, value * 1000)] else h.timers - {n},
       due := Without(h.due, n))
  }

  /** The cursor stands at the first timer that is due at `now`. */
  ghost predicate Scheduled(h: Hand, now: int) {
    DueIn(h.due, h.timers, now) && h.cursor == if h.due == [] then null else h.due[0]
  }

  /** The closed channels go; then the cursor is put on the first timer that is due. */
  ghost predicate Polls(v: View, v': View, now: int) {
    var closed := ClosedIn(v);
    && v'.list == Except(v.list, closed) && v'.links == v.links - closed && v'.gone == v.gone + closed
    && v'.hand.timers == v.hand.timers - closed && Scheduled(v'.hand, now)
  }

  /** The timers due are handled, in order, up to the first whose event gets past the filter. */
  ghost predicate Handles(h: Hand, h': Hand, handled: seq<Channel>, message: Channel?,
                          later: nat -> int, passes: nat -> bool) {
    match h'
    case Hand(timers, due, cursor) =>
      && h.due == handled + due && Refired(h.timers, timers, handled, later, 0)
      && Filtered(handled, message, passes, 0)
      && (due != [] ==> cursor == due[0])
      && (if message == null then due == [] && cursor == null else cursor != message)
  }

  ghost predicate Tells(v: View, v': View, op: Op, r: Reply)
    requires op.NextTimer?
  {
    && v' == v.(hand := v'.hand) && r == Reply(Fine, null, r.handled, r.message)
    && Handles(v.hand, v'.hand, r.handled, r.message, op.later, op.passes)
  }

  ghost predicate Does(v: View, op: Op, v': View, r: Reply) {
    match op
    case Open => Makes(v, v', r, Disconnected)
    case Accept(_) => Makes(v, v', r, Connected)
    case On(i, o) =>
      if i >= |v.list| then v' == v && r == Quiet
      else
        var n := v.list[i];
        && n in v.links && v' == v.(links := v.links[n := LinkAfter(v.links[n], o)])
        && r == Quiet.(fate := if Hangs(v.links[n], o) then Hung else Fine)
    case SetTimer(i, value, now, _) =>
      if i >= |v.list| || (v.list[i] in v.links && v.links[v.list[i]].state == Closed) then v' == v && r == Quiet
      else
        && v' == v.(hand := Retimed(v.hand, v.list[i], value, now))
        && r == Quiet.(fate := if v.hand.cursor == v.list[i] then Lost else Fine)
    case Close(i) =>
      if i >= |v.list| then v' == v && r == Quiet
      else
        var n := v.list[i];
        && n in v.links
        && (if v.links[n].wire.blocks != [] then v' == v && r == Quiet.(fate := Hung)
            else v' == v.(links := v.links[n := v.links[n].(state := Closed)]) && r == Quiet)
    case Poll(now) => Polls(v, v', now) && r == Quiet
    case NextTimer(_, _, _) => Tells(v, v', op, r)
  }

  /** A call for a channel that is not there does nothing. */
  lemma DoesNothing(v: View, op: Op)
    requires (op.On? || op.SetTimer? || op.Close?) && op.i >= |v.list|
    ensures Does(v, op, v, Quiet)
  {
  }

  function Ended(hung: bool): Reply {
    Quiet.(fate := if hung then Hung else Fine)
  }

  lemma DoesOn(v: View, i: nat, op: ChannelOp, v': View, hung: bool)
    requires i < |v.list| && v.list[i] in v.links && (hung <==> Hangs(v.links[v.list[i]], op))
    requires v' == v.(links := v.links[v.list[i] := LinkAfter(v.links[v.list[i]], op)])
    ensures Does(v, On(i, op), v', Ended(hung))
  {
  }

  lemma DoesClose(v: View, i: nat, v': View, hung: bool)
    requires i < |v.list| && v.list[i] in v.links
    requires var link := v.links[v.list[i]];
             && (hung <==> link.wire.blocks != [])
             && v' == v.(links := v.links[v.list[i] := if hung then link else link.(state := Closed)])
    ensures Does(v, Close(i), v', Ended(hung))
  {
    var n := v.list[i];
    assert v.links[n := v.links[n]] == v.links;
  }

  lemma DoesSetTimer(v: View, i: nat, value: int, now: int, height: nat, v': View, fate: Fate)
    requires i < |v.list| && v.list[i] in v.links
    requires var n := v.list[i];
             if v.links[n].state == Closed then v' == v && fate == Fine
             else v' == v.(hand := Retimed(v.hand, n, value, now)) && fate == if v.hand.cursor == n then Lost else Fine
    ensures Does(v, SetTimer(i, value, now, height), v', Quiet.(fate := fate))
  {
  }

  // ----- whole runs

  /** Sockets are positive and heights are in range. */
  ghost predicate Possible(op: Op) {
    match op
    case Accept(fd) => fd > 0
    case SetTimer(_, _, _, height) => 1 <= height <= MAX_LEVEL
    case NextTimer(_, heights, _) => forall i :: 1 <= heights(i) <= MAX_LEVEL
    case _ => true
  }

  /** What a call reads from the clock is not before `t`. */
  ghost predicate Since(op: Op, t: int) {
    match op
    case SetTimer(_, _, now, _) => now >= t
    case Poll(now) => now >= t
    case NextTimer(later, _, _) => forall i :: later(i) >= t
    case _ => true
  }

  /** The clock starts at zero or later, and after a poll it never shows an earlier time. */
  ghost predicate Timely(ops: seq<Op>) {
    && (forall j :: 0 <= j < |ops| ==> Since(ops[j], 0))
    && (forall i, j :: 0 <= i < j < |ops| && ops[i].Poll? ==> Since(ops[j], ops[i].now))
  }

  /** All calls have come back and left the cursor where it should be. */
  ghost predicate GoingOn(rs: seq<Reply>) {
    forall j :: 0 <= j < |rs| ==> rs[j].fate == Fine
  }

  /** Views and replies of a run: each call does what it should, and the run ends with the first that fails. */
  ghost predicate Ran(vs: seq<View>, ops: seq<Op>, rs: seq<Reply>) {
    && |rs| <= |ops| && |vs| == |rs| + 1 && vs[0] == Empty
    && (forall j :: 0 <= j < |rs| ==> Does(vs[j], ops[j], vs[j + 1], rs[j]))
    && (forall j :: 0 <= j < |rs| - 1 ==> rs[j].fate == Fine)
  }

  lemma RanNext(vs: seq<View>, ops: seq<Op>, rs: seq<Reply>, v: View, r: Reply)
    requires Ran(vs, ops, rs) && GoingOn(rs) && |rs| < |ops| && Does(vs[|rs|], ops[|rs|], v, r)
    ensures Ran(vs + [v], ops, rs + [r])
  {
  }

  // ----- what every run keeps

  /** The list, the links and the timers fit together; a destroyed channel is in none of them. */
  ghost predicate Fits(v: View) {
    && NoDup(v.list) && (forall n :: n in v.list ==> n in v.links) && (forall n :: n in v.links ==> n in v.list)
    && v.links.Keys !! v.gone && (forall n :: n in v.hand.timers ==> n in v.links)
    && NoDup(v.hand.due) && (forall n :: n in v.hand.due ==> n in v.hand.timers)
  }

  lemma HandlesKeeps(h: Hand, h': Hand, handled: seq<Channel>, message: Channel?, later: nat -> int,
                     passes: nat -> bool)
    requires Handles(h, h', handled, message, later, passes)
    requires NoDup(h.due) && forall n :: n in h.due ==> n in h.timers
    ensures NoDup(h'.due) && forall n :: n in h'.due ==> n in h'.timers
    ensures forall n :: n in h'.timers ==> n in h.timers
    ensures message != null ==> message in h.due
  {
    NoDupConcat(handled, h'.due);
    forall n | n in h'.timers ensures n in h.timers {
      assert n in h.timers.Keys + h'.timers.Keys;
      assert n in handled ==> n in h.due;
    }
    forall n | n in h'.due ensures n in h'.timers {
      assert n in h.due && n !in handled && n in h.timers.Keys + h'.timers.Keys;
    }
  }

  lemma MakesKeeps(v: View, v': View, r: Reply, state: ChannelState)
    requires Fits(v) && Makes(v, v', r, state)
    ensures Fits(v')
  {
    var n: Channel := r.made;
    assert n !in v.list;
    NoDupAppend(v.list, n);
  }

  lemma DoesKeeps(v: View, op: Op, v': View, r: Reply)
    requires Fits(v) && Does(v, op, v', r)
    ensures Fits(v')
  {
    match op
    case Open => MakesKeeps(v, v', r, Disconnected);
    case Accept(_) => MakesKeeps(v, v', r, Connected);
    case SetTimer(i, _, _, _) => if i < |v.list| { WithoutKeeps(v.hand.due, v.list[i]); }
    case Poll(now) => ExceptKeeps(v.list, ClosedIn(v));
    case NextTimer(later, _, passes) => HandlesKeeps(v.hand, v'.hand, r.handled, r.message, later, passes);
    case _ =>
  }

  lemma {:induction false} RunFits(vs: seq<View>, ops: seq<Op>, rs: seq<Reply>, k: nat)
    requires Ran(vs, ops, rs) && k <= |rs|
    ensures Fits(vs[k])
  {
    if k > 0 {
      RunFits(vs, ops, rs, k - 1);
      DoesKeeps(vs[k - 1], ops[k - 1], vs[k], rs[k - 1]);
    }
  }

  // ----- when a run stops

  /** A call never comes back exactly if it hangs in the state it meets, or closes a channel with bytes cached. */
  ghost predicate NeverReturns(v: View, op: Op) {
    (op.On? || op.Close?) && op.i < |v.list| && v.list[op.i] in v.links &&
    var l := v.links[v.list[op.i]]; if op.On? then Hangs(l, op.op) else l.wire.blocks != []
  }

  /** It loses the cursor exactly if it sets the timer of the open channel that the cursor points at. */
  ghost predicate LosesCursor(v: View, op: Op) {
    op.SetTimer? && op.i < |v.list| && v.hand.cursor == v.list[op.i] && v.list[op.i] in v.links
    && v.links[v.list[op.i]].state != Closed
  }

  /** So a run stops short exactly there. */
  lemma StopsIff(vs: seq<View>, ops: seq<Op>, rs: seq<Reply>, k: nat)
    requires Ran(vs, ops, rs) && k < |rs|
    ensures rs[k].fate == Hung <==> NeverReturns(vs[k], ops[k])
    ensures rs[k].fate == Lost <==> LosesCursor(vs[k], ops[k])
  {
    RunFits(vs, ops, rs, k);
    assert Does(vs[k], ops[k], vs[k + 1], rs[k]);
  }

  // ----- no byte is lost, whatever happens on the other channels

  /** What a step hands over for `n`. */
  ghost function HandedIn(v: View, op: Op, n: Channel): seq<Byte> {
    if op.On? && op.i < |v.list| && v.list[op.i] == n && n in v.links then HandedOver(v.links[n], op.op) else []
  }

  /** What the first k steps hand over for `n`, in order. */
  ghost function HandedTo(vs: seq<View>, ops: seq<Op>, n: Channel, k: nat): seq<Byte>
    requires k <= |ops| && k <= |vs|
  {
    if k == 0 then [] else HandedTo(vs, ops, n, k - 1) + HandedIn(vs[k - 1], ops[k - 1], n)
  }

  /** The bytes taken for `n` and those cached are `h`; a channel not made yet has none. */
  ghost predicate Carried(v: View, n: Channel, h: seq<Byte>) {
    && (n in v.links ==> v.links[n].wire.taken + Flat(v.links[n].wire.blocks) == h)
    && (n !in v.links && n !in v.gone ==> h == [])
  }

  lemma DoesCarry(v: View, op: Op, v': View, r: Reply, n: Channel, h: seq<Byte>)
    requires Fits(v) && Does(v, op, v', r) && Carried(v, n, h)
    ensures Carried(v', n, h + HandedIn(v, op, n))
  {
    assert h + [] == h;
    match op
    case On(i, o) => if i < |v.list| && v.list[i] == n { LinkConserves(v.links[n], o); }
    case _ =>
  }

  /**
   After any run, for every channel: the bytes the system has taken, followed by those cached, are the bytes
   of all sends on it that did not fail, in order; a channel not made yet has been handed nothing.
   */
  lemma {:induction false} EveryByteKept(vs: seq<View>, ops: seq<Op>, rs: seq<Reply>, n: Channel, k: nat)
    requires Ran(vs, ops, rs) && k <= |rs|
    ensures n in vs[k].links ==>
              var w := vs[k].links[n].wire; w.taken + Flat(w.blocks) == HandedTo(vs, ops, n, k)
    ensures n !in vs[k].links && n !in vs[k].gone ==> HandedTo(vs, ops, n, k) == []
  {
    if k > 0 {
      EveryByteKept(vs, ops, rs, n, k - 1);
      RunFits(vs, ops, rs, k - 1);
      DoesCarry(vs[k - 1], ops[k - 1], vs[k], rs[k - 1], n, HandedTo(vs, ops, n, k - 1));
    }
  }

  // ----- closed channels

  /** The channels closed by the steps before k and after the last poll before k. */
  ghost function ClosedSince(vs: seq<View>, ops: seq<Op>, k: nat): set<Channel>
    requires k <= |ops| && k <= |vs|
  {
    if k == 0 || ops[k - 1].Poll? then {}
    else ClosedSince(vs, ops, k - 1) + ClosedBy(vs[k - 1], ops[k - 1])
  }

  ghost function ClosedBy(v: View, op: Op): set<Channel> {
    if op.Close? && op.i < |v.list| && v.list[op.i] in v.links && v.links[v.list[op.i]].wire.blocks == []
    then {v.list[op.i]} else {}
  }

  lemma DoesCloses(v: View, op: Op, v': View, r: Reply)
    requires Fits(v) && Does(v, op, v', r)
    ensures ClosedIn(v') == if op.Poll? then {} else ClosedIn(v) + ClosedBy(v, op)
  {
    if op.On? && op.i < |v.list| {
      LinkStaysClosed(v.links[v.list[op.i]], op.op);
    }
  }

  /** After any run the closed channels not destroyed yet are those closed since the last poll. */
  lemma {:induction false} ClosedAre(vs: seq<View>, ops: seq<Op>, rs: seq<Reply>, k: nat)
    requires Ran(vs, ops, rs) && k <= |rs|
    ensures ClosedIn(vs[k]) == ClosedSince(vs, ops, k)
  {
    if k > 0 {
      ClosedAre(vs, ops, rs, k - 1);
      RunFits(vs, ops, rs, k - 1);
      DoesCloses(vs[k - 1], ops[k - 1], vs[k], rs[k - 1]);
    }
  }

  /**
   A timer message is about a channel that has not been destroyed. The channel was open when the timers were
   last scheduled; it is closed now exactly if the program has closed it since.
   */
  lemma MessageAbout(vs: seq<View>, ops: seq<Op>, rs: seq<Reply>, k: nat)
    requires Ran(vs, ops, rs) && k < |rs| && ops[k].NextTimer? && rs[k].message != null
    ensures var n := rs[k].message;
            && n in vs[k].links && n !in vs[k].gone && n in vs[k].hand.due
            && (vs[k].links[n].state == Closed <==> n in ClosedSince(vs, ops, k))
  {
    RunFits(vs, ops, rs, k);
    ClosedAre(vs, ops, rs, k);
    var op := ops[k];
    HandlesKeeps(vs[k].hand, vs[k + 1].hand, rs[k].handled, rs[k].message, op.later, op.passes);
  }

  // ----- every due timer once

  /** The channels whose timers the steps from p to k handle, in order. */
  ghost function HandledBetween(rs: seq<Reply>, p: nat, k: nat): seq<Channel>
    requires p <= k <= |rs|
  {
    if k == p then [] else HandledBetween(rs, p, k - 1) + rs[k - 1].handled
  }

  /** A step from p to k sets or drops n's timer. */
  ghost predicate Touched(vs: seq<View>, ops: seq<Op>, p: nat, k: nat, n: Channel)
    requires k <= |ops| && k <= |vs|
  {
    exists j :: p <= j < k && ops[j].SetTimer? && ops[j].i < |vs[j].list| && vs[j].list[ops[j].i] == n
  }

  lemma WithoutTail(a: seq<Channel>, b: seq<Channel>, n: Channel)
    requires n !in a
    ensures a + Without(b, n) == Without(a + b, n)
    decreases |a|
  {
    if a == [] {
      assert a + b == b;
    } else {
      assert (a + b)[1..] == a[1..] + b;
      WithoutTail(a[1..], b, n);
      assert a + Without(b, n) == [a[0]] + (a[1..] + Without(b, n));
    }
  }

  /**
   Between two polls, the timers handled so far, followed by those still due, are those due at the poll, in
   their order, without the ones the program has set or dropped since: no timer is handled twice.
   */
  lemma {:induction false} EachOnce(vs: seq<View>, ops: seq<Op>, rs: seq<Reply>, p: nat, k: nat)
    returns (away: set<Channel>)
    requires Ran(vs, ops, rs) && p <= k <= |rs| && forall j :: p <= j < k ==> !ops[j].Poll?
    ensures HandledBetween(rs, p, k) + vs[k].hand.due == Except(vs[p].hand.due, away)
    ensures forall n :: n in away ==> Touched(vs, ops, p, k, n)
    decreases k
  {
    if k == p {
      away := {};
      ExceptNone(vs[p].hand.due);
      assert [] + vs[p].hand.due == vs[p].hand.due;
    } else {
      away := EachOnce(vs, ops, rs, p, k - 1);
      assert forall n :: Touched(vs, ops, p, k - 1, n) ==> Touched(vs, ops, p, k, n);
      away := OnceMore(vs, ops, rs, p, k, away);
    }
  }

  lemma OnceMore(vs: seq<View>, ops: seq<Op>, rs: seq<Reply>, p: nat, k: nat, away: set<Channel>)
    returns (away': set<Channel>)
    requires Ran(vs, ops, rs) && p < k <= |rs| && !ops[k - 1].Poll?
    requires HandledBetween(rs, p, k - 1) + vs[k - 1].hand.due == Except(vs[p].hand.due, away)
    requires forall n :: n in away ==> Touched(vs, ops, p, k, n)
    ensures HandledBetween(rs, p, k) + vs[k].hand.due == Except(vs[p].hand.due, away')
    ensures forall n :: n in away' ==> Touched(vs, ops, p, k, n)
  {
    var v, op, h := vs[k - 1], ops[k - 1], HandledBetween(rs, p, k - 1);
    away' := away;
    assert h + [] == h;
    if op.NextTimer? {
      assert h + (rs[k - 1].handled + vs[k].hand.due) == h + rs[k - 1].handled + vs[k].hand.due;
    } else if op.SetTimer? && op.i < |v.list| && vs[k].hand.due != v.hand.due {
      var n := v.list[op.i];
      assert Touched(vs, ops, p, k, n);
      RunFits(vs, ops, rs, p);
      assert vs[k].hand.due == Without(v.hand.due, n) by { assert Does(v, op, vs[k], rs[k - 1]); }
      TakenAway(h, v.hand.due, vs[p].hand.due, away, n);
      away' := away + {n};
    }
  }

  /** A channel still due is taken out of the queue. */
  lemma TakenAway(h: seq<Channel>, due: seq<Channel>, all: seq<Channel>, away: set<Channel>, n: Channel)
    requires NoDup(all) && h + due == Except(all, away) && Without(due, n) != due
    ensures h + Without(due, n) == Except(all, away + {n})
  {
    if n !in due { WithoutAbsent(due, n); }
    ExceptKeeps(all, away);
    NoDupConcat(h, due);
    assert n in h + due && n !in h;
    WithoutTail(h, due, n);
    ExceptNext(all, away, n);
  }

  // ----- a run in which a closed channel gets its timer message

  /** Two channels with timers, both due; on the message of the first the program closes the second. */
  function ClosingRun(later: nat -> int, heights: nat -> nat, passes: nat -> bool): seq<Op> {
    [Open, Open, SetTimer(0, 2, 0, 1), SetTimer(1, 1, 0, 1), Poll(5000),
     NextTimer(later, heights, passes), Close(0), NextTimer(later, heights, passes)]
  }

  lemma FirstTold(h: Hand, h': Hand, handled: seq<Channel>, message: Channel?, later: nat -> int, passes: nat -> bool)
    requires Handles(h, h', handled, message, later, passes) && h.due != [] && forall i :: passes(i)
    ensures message == h.due[0] && handled == [h.due[0]] && h'.due == h.due[1..]
  {
    assert passes(0);
    assert [] + h'.due == h'.due;
  }

  lemma DuePair(q: seq<Channel>, timers: Deadlines, a: Channel, b: Channel, now: int)
    requires DueIn(q, timers, now) && timers.Keys == {a, b} && a != b && timers[a].time < timers[b].time <= now
    ensures q == [a, b]
  {
    assert a in q && b in q;
    NoDupIndex(q);
    var i :| 0 <= i < |q| && q[i] == a;
    var j :| 0 <= j < |q| && q[j] == b;
    assert forall k :: 0 <= k < |q| ==> q[k] in q && q[k] in timers;
    assert i < j && forall k :: 0 <= k < |q| ==> q[k] == q[i] || q[k] == q[j];
    assert q[0] == a && q[|q| - 1] == b && q[|q| - 2] == a;
  }

  lemma TwoMade(vs: seq<View>, ops: seq<Op>, rs: seq<Reply>, later: nat -> int, heights: nat -> nat,
                passes: nat -> bool)
    returns (a: Channel, b: Channel)
    requires ops == ClosingRun(later, heights, passes) && Ran(vs, ops, rs)
    requires |rs| < 8 ==> rs != [] && rs[|rs| - 1].fate != Fine
    ensures |rs| >= 3 && a != b
    ensures var none := Link(Disconnected, StreamSpec.Wire([], []), false);
            vs[2] == View([b, a], map[a := none, b := none], {}, Hand(map[], [], null))
  {
    assert Makes(vs[0], vs[1], rs[0], Disconnected);
    a := rs[0].made;
    assert vs[1].list == [a] && |rs| >= 2;
    assert Makes(vs[1], vs[2], rs[1], Disconnected);
    b := rs[1].made;
    assert vs[2].list == [b, a] && |rs| >= 3;
  }

  lemma TwoTimed(vs: seq<View>, ops: seq<Op>, rs: seq<Reply>, later: nat -> int, heights: nat -> nat,
                 passes: nat -> bool)
    returns (a: Channel, b: Channel)
    requires ops == ClosingRun(later, heights, passes) && Ran(vs, ops, rs)
    requires |rs| < 8 ==> rs != [] && rs[|rs| - 1].fate != Fine
    ensures |rs| >= 5 && a != b
    ensures var none := Link(Disconnected, StreamSpec.Wire([], []), false);
            && vs[4].list == [b, a] && vs[4].links == map[a := none, b := none]
            && vs[4].hand.timers == map[b := Entry(2000, 2000), a := Entry(1000, 1000)]
  {
    a, b := TwoMade(vs, ops, rs, later, heights, passes);
    assert Does(vs[2], ops[2], vs[3], rs[2]) && |rs| >= 4;
    assert Does(vs[3], ops[3], vs[4], rs[3]) && |rs| >= 5;
    assert map[b := Entry(2000, 2000)][a := Entry(1000, 1000)] == map[b := Entry(2000, 2000), a := Entry(1000, 1000)];
  }

  /** As far as the poll: both timers are due. */
  lemma BothDue(vs: seq<View>, ops: seq<Op>, rs: seq<Reply>, later: nat -> int, heights: nat -> nat,
                passes: nat -> bool)
    returns (a: Channel, b: Channel)
    requires ops == ClosingRun(later, heights, passes) && Ran(vs, ops, rs)
    requires |rs| < 8 ==> rs != [] && rs[|rs| - 1].fate != Fine
    ensures |rs| >= 6 && vs[5].list == [b, a] && vs[5].hand.due == [a, b]
    ensures b in vs[5].links && vs[5].links[b] == Link(Disconnected, StreamSpec.Wire([], []), false)
  {
    a, b := TwoTimed(vs, ops, rs, later, heights, passes);
    assert Polls(vs[4], vs[5], 5000) && ClosedIn(vs[4]) == {};
    ExceptNone(vs[4].list);
    DuePair(vs[5].hand.due, vs[5].hand.timers, a, b, 5000);
  }

  /** The program is told about the channel it has closed. */
  lemma ToldAboutClosed(vs: seq<View>, ops: seq<Op>, rs: seq<Reply>, later: nat -> int, heights: nat -> nat,
                        passes: nat -> bool)
    requires ops == ClosingRun(later, heights, passes) && Ran(vs, ops, rs) && forall i :: passes(i)
    requires |rs| < 8 ==> rs != [] && rs[|rs| - 1].fate != Fine
    ensures |rs| == 8 && rs[7].message != null && rs[7].message in vs[8].links
    ensures vs[8].links[rs[7].message].state == Closed
  {
    var a, b := BothDue(vs, ops, rs, later, heights, passes);
    assert Tells(vs[5], vs[6], ops[5], rs[5]) && |rs| >= 7;
    FirstTold(vs[5].hand, vs[6].hand, rs[5].handled, rs[5].message, later, passes);
    assert Does(vs[6], ops[6], vs[7], rs[6]) && |rs| >= 8;
    assert vs[7].links[b].state == Closed && vs[7].hand == vs[6].hand;
    assert Tells(vs[7], vs[8], ops[7], rs[7]);
    FirstTold(vs[7].hand, vs[8].hand, rs[7].handled, rs[7].message, later, passes);
  }
}
