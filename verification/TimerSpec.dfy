/**
 Timers as values: which are due, what re-arming does to them, what the caller
 of a drain may do in between, and how all of that adds up.
 */
module TimerSpec {
  import opened MnetData
  import opened QueueSpec
  import opened SkipLevels
  import opened SkipLists

  // ----- timers that are due

  /** The timers whose deadline has come by `now`: the front of the list. */
  ghost function Due(q: seq<SkipNode>, now: int): seq<SkipNode> {
    if q == [] || q[0].key > now then [] else [q[0]] + Due(q[1..], now)
  }

  lemma {:induction false} DueParts(q: seq<SkipNode>, now: int) returns (rest: seq<SkipNode>)
    requires Sorted(q)
    ensures q == Due(q, now) + rest
    ensures forall x :: x in Due(q, now) ==> x.key <= now
    ensures forall x :: x in rest ==> x.key > now
  {
    if q == [] || q[0].key > now {
      rest := q;
      assert forall x :: x in q ==> x == q[0] || x in q[1..];
    } else {
      rest := DueParts(q[1..], now);
    }
  }

  /** Due timers are exactly those in the list whose deadline has come. */
  lemma DueExactly(q: seq<SkipNode>, now: int, x: SkipNode)
    requires Sorted(q)
    ensures x in Due(q, now) <==> x in q && x.key <= now
  {
    var rest := DueParts(q, now);
  }

  /** A timer set for later does not count among those due. */
  lemma {:induction false} DueInsert(q: seq<SkipNode>, node: SkipNode, now: int)
    requires node.key > now
    ensures Due(Inserted(q, node), now) == Due(q, now)
  {
    if q != [] && q[0].key < node.key {
      assert Inserted(q, node)[1..] == Inserted(q[1..], node);
      DueInsert(q[1..], node, now);
    } else {
      assert Inserted(q, node)[0] == node;
    }
  }

  /** Taking a timer out of the list takes it out of those due, if it was among them. */
  lemma {:induction false} DueWithout(q: seq<SkipNode>, x: SkipNode, now: int)
    requires Sorted(q)
    ensures Due(Without(q, x), now) == Without(Due(q, now), x)
  {
    if q == [] {
    } else if q[0] == x {
      if q[1..] != [] { assert q[1] in q[1..]; }
      assert x.key <= now ==> ([x] + Due(q[1..], now))[1..] == Due(q[1..], now);
    } else {
      assert Without(q, x)[1..] == Without(q[1..], x);
      DueWithout(q[1..], x, now);
      assert q[0].key <= now ==> ([q[0]] + Due(q[1..], now))[1..] == Due(q[1..], now);
    }
  }

  lemma {:induction false} InsertedMember(q: seq<SkipNode>, node: SkipNode)
    ensures forall x :: x in Inserted(q, node) <==> x == node || x in q
    ensures forall k :: 0 <= k < |Inserted(q, node)| ==> Inserted(q, node)[k] == node || Inserted(q, node)[k] in q
  {
    if q != [] && q[0].key < node.key {
      var t := Inserted(q[1..], node);
      InsertedMember(q[1..], node);
      assert forall x :: x in q <==> x == q[0] || x in q[1..];
      forall k | 0 <= k < |t| + 1 ensures ([q[0]] + t)[k] == node || ([q[0]] + t)[k] in q {
        if k > 0 { assert ([q[0]] + t)[k] == t[k - 1]; }
      }
    }
  }

  /** Re-arming the first due timer makes the second one the first, and no other timer due. */
  lemma FireFacts(q: seq<SkipNode>, node: SkipNode, now: int)
    requires Due(q, now) != [] && node.key > now
    ensures var q' := Inserted(Without(q, q[0]), node);
            && Due(q', now) == Due(q, now)[1..]
            && (Due(q', now) != [] ==> |q| > 1 && q'[0] == q[1])
            && (|q| > 1 ==> q[1] in q')
  {
    DueInsert(q[1..], node, now);
    InsertedMember(q[1..], node);
  }

  /** The list without a channel's old node, if it had one. */
  ghost function Minus(q: seq<SkipNode>, x: SkipNode?): seq<SkipNode> {
    if x == null then q else Without<SkipNode>(q, x)
  }

  /** A timer not under the cursor leaves the list, the first due timer staying first. */
  lemma RemoveKeepsDue(q: seq<SkipNode>, x: SkipNode?, now: int)
    requires Sorted(q)
    ensures var q' := Minus(q, x);
            && Due(q', now) == Minus(Due(q, now), x)
            && (Due(q, now) != [] && x != q[0] ==> Due(q', now) != [] && q'[0] == q[0])
            && (forall y :: y in q && y != x ==> y in q')
            && (forall k :: 0 <= k < |q'| ==> q'[k] in q)
  {
    if x != null {
      var node: SkipNode := x;
      DueWithout(q, node, now);
      WithoutSubset(q, node);
      WithoutOthers(q, node);
    }
  }

  /** A node taken out is neither first nor anywhere. */
  lemma CursorGone(q: seq<SkipNode>, x: SkipNode?, now: int)
    requires NoDup(q)
    ensures forall k :: 0 <= k < |Minus(q, x)| ==> Minus(q, x)[k] != x
  {
    if x != null {
      var node: SkipNode := x;
      WithoutKeeps(q, node);
      assert node !in Without(q, node);
    }
  }

  lemma {:induction false} WithoutOthers(q: seq<SkipNode>, x: SkipNode)
    ensures forall y :: y in q && y != x ==> y in Without(q, x)
  {
    if q != [] && q[0] != x {
      WithoutOthers(q[1..], x);
      assert forall y :: y in q <==> y == q[0] || y in q[1..];
    }
  }

  lemma InsertKeepsDue(q: seq<SkipNode>, node: SkipNode, now: int)
    requires node.key > now
    ensures var q' := Inserted(q, node);
            && Due(q', now) == Due(q, now)
            && (Due(q, now) != [] ==> q'[0] == q[0])
            && (forall y :: y in q ==> y in q')
            && (forall k :: 0 <= k < |q'| ==> q'[k] == node || q'[k] in q)
  {
    DueInsert(q, node, now);
    InsertedMember(q, node);
  }

  /** The node of a timer that belongs to channel `n`. */
  ghost predicate OwnedBy(x: SkipNode, n: Channel) {
    x.value != null && x.value.chann == n
  }

  /** The nodes of `q` belong to the channels `ns`, in this order. */
  ghost predicate OwnedAll(q: seq<SkipNode>, ns: seq<Channel>) {
    |q| == |ns| && forall j :: 0 <= j < |q| ==> OwnedBy(q[j], ns[j])
  }

  /** The channels that the nodes of `q` belong to. */
  ghost function OwnersOf(q: seq<SkipNode>): seq<Channel> {
    if q == [] then [] else (if q[0].value == null then [] else [q[0].value.chann]) + OwnersOf(q[1..])
  }

  lemma {:induction false} OwnersOfAll(q: seq<SkipNode>, ns: seq<Channel>)
    requires OwnedAll(q, ns)
    ensures OwnersOf(q) == ns
  {
    if q != [] { OwnersOfAll(q[1..], ns[1..]); }
  }

  lemma {:induction false} OwnersOfConcat(p: seq<SkipNode>, q: seq<SkipNode>)
    ensures OwnersOf(p + q) == OwnersOf(p) + OwnersOf(q)
  {
    if p == [] {
      assert p + q == q;
    } else {
      assert (p + q)[1..] == p[1..] + q;
      OwnersOfConcat(p[1..], q);
    }
  }

  /** Taking out the one node of a channel takes out the channel. */
  lemma {:induction false} OwnersOfMinus(q: seq<SkipNode>, x: SkipNode?, n: Channel)
    requires forall y :: y in q ==> y.value != null && (y.value.chann == n <==> y == x)
    ensures OwnersOf(Minus(q, x)) == Without(OwnersOf(q), n)
  {
    if q == [] {
    } else if q[0] == x {
      assert ([n] + OwnersOf(q[1..]))[1..] == OwnersOf(q[1..]);
    } else {
      OwnersOfMinus(q[1..], x, n);
      var t := OwnersOf(q[1..]);
      assert ([q[0].value.chann] + t)[1..] == t;
      if x != null {
        var node: SkipNode := x;
        assert ([q[0]] + Without(q[1..], node))[1..] == Without(q[1..], node);
      }
    }
  }

  lemma Assoc(a: seq<SkipNode>, b: seq<SkipNode>, c: seq<SkipNode>)
    ensures a + (b + c) == a + b + c
  {
  }

  lemma NoneDue(q: seq<SkipNode>, now: int)
    requires Sorted(q) && Due(q, now) == []
    ensures forall k :: 0 <= k < |q| ==> q[k].key > now
  {
    forall k | 0 <= k < |q| ensures q[k].key > now {
      DueExactly(q, now, q[k]);
    }
  }

  /** A timer set for later, or none at all, is not among those due. */
  lemma NotDue(q: seq<SkipNode>, x: SkipNode?, now: int)
    requires Sorted(q) && (x != null ==> x.key > now)
    ensures Minus(Due(q, now), x) == Due(q, now)
  {
    if x != null {
      var node: SkipNode := x;
      DueExactly(q, now, node);
      WithoutAbsent(Due(q, now), node);
    }
  }

  /** Due timers come in deadline order and each once; they are all that are due. */
  lemma DueOrdered(q: seq<SkipNode>, now: int)
    requires Sorted(q) && NoDup(q)
    ensures Sorted(Due(q, now)) && NoDup(Due(q, now))
    ensures forall x :: x in Due(q, now) <==> x in q && x.key <= now
  {
    var rest := DueParts(q, now);
    SortedConcat(Due(q, now), rest);
    NoDupConcat(Due(q, now), rest);
  }

  lemma {:induction false} SortedIndex(q: seq<SkipNode>)
    requires Sorted(q)
    ensures forall i, j :: 0 <= i < j < |q| ==> q[i].key <= q[j].key
  {
    if q != [] {
      var t := q[1..];
      SortedIndex(t);
      forall i, j | 0 <= i < j < |q| ensures q[i].key <= q[j].key {
        assert q[j] == t[j - 1];
        if i > 0 { assert q[i] == t[i - 1]; }
      }
    }
  }

  // ----- timers as values: a deadline and an interval for each channel that has one

  datatype Entry = Entry(time: int, span: int)

  type Deadlines = map<Channel, Entry>

  /** The hand of the clock: the timers, who is due and not handled yet, and whose timer the cursor points at. */
  datatype Hand = Hand(timers: Deadlines, due: seq<Channel>, cursor: Channel?)

  ghost predicate Agree(a: Deadlines, b: Deadlines, n: Channel) {
    (n in a <==> n in b) && (n in a ==> a[n] == b[n])
  }

  /** The channels whose timers are due at `now`, by deadline. */
  ghost predicate DueIn(q: seq<Channel>, timers: Deadlines, now: int) {
    && NoDup(q)
    && (forall n :: n in q ==> n in timers && timers[n].time <= now)
    && (forall n :: n in timers && timers[n].time <= now ==> n in q)
    && (forall i, j :: 0 <= i < j < |q| ==> timers[q[i]].time <= timers[q[j]].time)
  }

  /** Channel `n` alone has a new entry. */
  ghost predicate Sets(a: Deadlines, b: Deadlines, n: Channel, e: Entry) {
    n in b && b[n] == e && AgreeBut(a, b, n)
  }

  /** Channel `n` alone has no entry any more. */
  ghost predicate Drops(a: Deadlines, b: Deadlines, n: Channel) {
    n !in b && AgreeBut(a, b, n)
  }

  ghost predicate AgreeBut(a: Deadlines, b: Deadlines, n: Channel) {
    forall m :: m in a.Keys + b.Keys && m != n ==> Agree(a, b, m)
  }

  lemma SetsAfter(a: Deadlines, b: Deadlines, c: Deadlines, n: Channel, e: Entry)
    requires AgreeBut(a, b, n) && Sets(b, c, n, e)
    ensures Sets(a, c, n, e)
  {
    forall m | m in a.Keys + c.Keys && m != n ensures Agree(a, c, m) {
      assert m in a.Keys + b.Keys ==> Agree(a, b, m);
      assert m in b.Keys + c.Keys ==> Agree(b, c, m);
    }
  }

  /** The timer starts again at `now`. */
  ghost function Again(e: Entry, now: int): Entry {
    Entry(now + e.span, e.span)
  }

  /** The channels `ns` have been re-armed, one after the other, the j-th when the clock said now(from + j). */
  ghost predicate Refired(a: Deadlines, b: Deadlines, ns: seq<Channel>, now: nat -> int, from: nat) {
    && (forall j :: 0 <= j < |ns| ==> ns[j] in a && ns[j] in b && b[ns[j]] == Again(a[ns[j]], now(from + j)))
    && (forall n :: n in a.Keys + b.Keys ==> n in ns || Agree(a, b, n))
  }

  lemma RefiredNext(a: Deadlines, b: Deadlines, c: Deadlines, ns: seq<Channel>, n: Channel,
                    now: nat -> int, from: nat)
    requires Refired(a, b, ns, now, from) && n !in ns && n in b && Sets(b, c, n, Again(b[n], now(from + |ns|)))
    ensures Refired(a, c, ns + [n], now, from)
  {
    var ns' := ns + [n];
    assert Agree(a, b, n);
    forall j | 0 <= j < |ns'| ensures ns'[j] in a && ns'[j] in c && c[ns'[j]] == Again(a[ns'[j]], now(from + j)) {
      if j < |ns| { assert ns'[j] == ns[j] && ns[j] in ns && Agree(b, c, ns[j]); }
    }
    forall m | m in a.Keys + c.Keys ensures m in ns' || Agree(a, c, m) {
      assert m in ns' <==> m in ns || m == n;
      assert m != n && m in b.Keys + c.Keys ==> Agree(b, c, m);
      assert m in a.Keys + b.Keys ==> m in ns || Agree(a, b, m);
    }
  }

  /** Their new deadlines lie beyond `now`. */
  ghost predicate Past(b: Deadlines, ns: seq<Channel>, now: int) {
    forall j :: 0 <= j < |ns| ==> ns[j] in b && b[ns[j]].time > now
  }

  // ----- what the caller gets and does

  /** The messages: of the channels handled, those whose event gets past the filter. */
  function Passed(ns: seq<Channel>, passes: nat -> bool, from: nat): seq<Channel> {
    if ns == [] then [] else (if passes(from) then [ns[0]] else []) + Passed(ns[1..], passes, from + 1)
  }

  lemma {:induction false} PassedConcat(a: seq<Channel>, b: seq<Channel>, passes: nat -> bool, from: nat)
    ensures Passed(a + b, passes, from) == Passed(a, passes, from) + Passed(b, passes, from + |a|)
  {
    if a == [] {
      assert a + b == b;
    } else {
      assert (a + b)[1..] == a[1..] + b;
      PassedConcat(a[1..], b, passes, from + 1);
    }
  }

  /** The channels handled are dropped by the filter, but for the last one if `msg` is it. */
  ghost predicate Filtered(ns: seq<Channel>, msg: Channel?, passes: nat -> bool, from: nat) {
    if msg == null then forall j :: from <= j < from + |ns| ==> !passes(j)
    else ns != [] && msg == ns[|ns| - 1] && passes(from + |ns| - 1)
         && forall j :: from <= j < from + |ns| - 1 ==> !passes(j)
  }

  lemma FilteredNext(ns: seq<Channel>, n: Channel, passes: nat -> bool, from: nat)
    requires Filtered(ns, null, passes, from)
    ensures Filtered(ns + [n], if passes(from + |ns|) then n else null, passes, from)
  {
  }

  lemma {:induction false} FilteredPassed(ns: seq<Channel>, msg: Channel?, passes: nat -> bool, from: nat)
    requires Filtered(ns, msg, passes, from)
    ensures Passed(ns, passes, from) == if msg == null then [] else [msg]
    decreases |ns|
  {
    if |ns| > 1 || (ns != [] && msg == null) {
      FilteredPassed(ns[1..], msg, passes, from + 1);
    }
  }

  /** A stretch of a drain: the timers and those due when it began, the channels handled and their old nodes. */
  datatype Log = Log(table: Deadlines, due: seq<SkipNode>, handled: seq<Channel>, fired: seq<SkipNode>)

  /**
   The log tells the truth about the timers `b` and those still due, `rest`: the front of those due has been
   handled, each re-armed at the reading of its turn and beyond `current`, and nothing else has changed.
   */
  ghost predicate Recorded(log: Log, b: Deadlines, rest: seq<SkipNode>, now: nat -> int, from: nat, current: int) {
    match log
    case Log(a, due, handled, fired) =>
      && due == fired + rest && OwnedAll(fired, handled)
      && Refired(a, b, handled, now, from) && Past(b, handled, current)
  }

  lemma RecordedStart(a: Deadlines, due: seq<SkipNode>, now: nat -> int, from: nat, current: int)
    ensures Recorded(Log(a, due, [], []), a, due, now, from, current)
  {
    assert [] + due == due;
  }

  lemma RecordedOwners(log: Log, b: Deadlines, rest: seq<SkipNode>, now: nat -> int, from: nat, current: int)
    requires Recorded(log, b, rest, now, from, current)
    ensures OwnersOf(log.due) == log.handled + OwnersOf(rest)
  {
    OwnersOfAll(log.fired, log.handled);
    OwnersOfConcat(log.fired, rest);
  }

  lemma DropsIs(a: Deadlines, b: Deadlines, n: Channel)
    requires Drops(a, b, n)
    ensures b == a - {n}
  {
    forall m | m != n && (m in a || m in b) ensures m in a && m in b && a[m] == b[m] {
      assert m in a.Keys + b.Keys && Agree(a, b, m);
    }
  }

  lemma SetsIs(a: Deadlines, b: Deadlines, n: Channel, e: Entry)
    requires Sets(a, b, n, e)
    ensures b == a[n := e]
  {
    forall m | m != n && (m in a || m in b) ensures m in a && m in b && a[m] == b[m] {
      assert m in a.Keys + b.Keys && Agree(a, b, m);
    }
  }

  function Logged(log: Log, n: Channel, pos: SkipNode): Log {
    log.(handled := log.handled + [n], fired := log.fired + [pos])
  }

  lemma RecordedNext(log: Log, b: Deadlines, rest: seq<SkipNode>, c: Deadlines, n: Channel, pos: SkipNode,
                     rest': seq<SkipNode>, now: nat -> int, from: nat, current: int)
    requires Recorded(log, b, rest, now, from, current) && rest == [pos] + rest' && OwnedBy(pos, n)
    requires n in b && b[n].time <= current && b[n].span > 0 && now(from + |log.handled|) >= current
    requires Sets(b, c, n, Again(b[n], now(from + |log.handled|)))
    ensures Recorded(Logged(log, n, pos), c, rest', now, from, current)
  {
    HandledNext(log.table, b, c, log.handled, n, now, from, current);
    Assoc(log.fired, [pos], rest');
    OwnersConcat(log.fired, log.handled, [pos], [n]);
  }

  /** One more timer handled, which was due and so is none of those handled before. */
  lemma HandledNext(a: Deadlines, b: Deadlines, c: Deadlines, ns: seq<Channel>, n: Channel,
                    now: nat -> int, from: nat, current: int)
    requires Refired(a, b, ns, now, from) && Past(b, ns, current) && n in b &&
             Sets(b, c, n, Again(b[n], now(from + |ns|)))
    requires b[n].time <= current && b[n].span > 0 && now(from + |ns|) >= current
    ensures Refired(a, c, ns + [n], now, from) && Past(c, ns + [n], current)
  {
    assert n !in ns;
    RefiredNext(a, b, c, ns, n, now, from);
    forall j | 0 <= j < |ns| ensures ns[j] in c && c[ns[j]].time > current {
      assert ns[j] in ns;
      assert Agree(b, c, ns[j]);
    }
  }

  /** A caller's wish for a channel's timer, with what the clock and the random source say. */
  datatype Move = Move(chann: Channel, value: int, now: int, height: nat)

  /** The caller leaves n's timer alone. */
  ghost predicate Alone(n: Channel, moves: seq<Move>) {
    forall m :: m in moves ==> m.chann != n
  }

  /** The caller does not kill n's timer. */
  ghost predicate Spared(n: Channel, moves: seq<Move>) {
    forall m :: m in moves && m.chann == n ==> m.value > 0
  }

  /** What a caller's moves can have done. */
  ghost predicate Moved(a: Deadlines, b: Deadlines, moves: seq<Move>) {
    && (forall n :: n in a.Keys + b.Keys && Alone(n, moves) ==> Agree(a, b, n))
    && (forall n :: n in a && Spared(n, moves) ==> n in b)
  }

  /** One move: it sets or drops the one timer it is about, or does nothing. */
  lemma MovedNext(a: Deadlines, b: Deadlines, c: Deadlines, moves: seq<Move>, m: Move)
    requires Moved(a, b, moves) && AgreeBut(b, c, m.chann)
    requires m.chann in b && m.value > 0 ==> m.chann in c
    ensures Moved(a, c, moves + [m])
  {
    assert forall k :: k in moves ==> k in moves + [m];
    assert m in moves + [m];
    forall n | n in a.Keys + c.Keys && Alone(n, moves + [m]) ensures Agree(a, c, n) {
      assert Alone(n, moves) && n != m.chann;
      assert n in b.Keys + c.Keys ==> Agree(b, c, n);
    }
    forall n | n in a && Spared(n, moves + [m]) ensures n in c {
      assert Spared(n, moves) && n in b;
      assert n != m.chann ==> Agree(b, c, n);
    }
  }

  ghost predicate AlwaysAlone(n: Channel, moves: nat -> seq<Move>) {
    forall i :: Alone(n, moves(i))
  }

  ghost predicate AlwaysSpared(n: Channel, moves: nat -> seq<Move>) {
    forall i :: Spared(n, moves(i))
  }

  /**
   How far a drain has come from `a`, with the channels `ns` handled so far: those the caller left alone
   are re-armed at the reading of their turn, the others it left alone are as before, and no timer is
   gone that the caller did not kill.
   */
  ghost predicate Tracked(a: Deadlines, b: Deadlines, ns: seq<Channel>, now: nat -> int, moves: nat -> seq<Move>) {
    && (forall j :: 0 <= j < |ns| ==>
          ns[j] in a && (AlwaysAlone(ns[j], moves) ==> ns[j] in b && b[ns[j]] == Again(a[ns[j]], now(j))))
    && (forall n :: n in a.Keys + b.Keys && AlwaysAlone(n, moves) ==> n in ns || Agree(a, b, n))
    && (forall n :: n in a && AlwaysSpared(n, moves) ==> n in b)
  }

  /** One more call of _tm_next and the caller's reaction to it. */
  lemma TrackedNext(a: Deadlines, b: Deadlines, ns: seq<Channel>, c: Deadlines, more: seq<Channel>,
                    d: Deadlines, now: nat -> int, moves: nat -> seq<Move>, i: nat)
    requires Tracked(a, b, ns, now, moves) && NoDup(ns + more)
    requires Refired(b, c, more, now, |ns|) && Moved(c, d, moves(i))
    requires forall j :: 0 <= j < |more| ==> more[j] in a
    ensures Tracked(a, d, ns + more, now, moves)
  {
    var all := ns + more;
    NoDupConcat(ns, more);
    TrackedFired(a, b, ns, c, more, now, moves);
    forall j | 0 <= j < |all| && AlwaysAlone(all[j], moves)
      ensures all[j] in d && d[all[j]] == Again(a[all[j]], now(j))
    {
      assert Alone(all[j], moves(i));
      assert all[j] in c && Agree(c, d, all[j]);
    }
    forall n | n in a.Keys + d.Keys && AlwaysAlone(n, moves) ensures n in all || Agree(a, d, n) {
      assert Alone(n, moves(i));
    }
    forall n | n in a && AlwaysSpared(n, moves) ensures n in d {
      assert Spared(n, moves(i));
    }
  }

  lemma TrackedFired(a: Deadlines, b: Deadlines, ns: seq<Channel>, c: Deadlines, more: seq<Channel>,
                     now: nat -> int, moves: nat -> seq<Move>)
    requires Tracked(a, b, ns, now, moves) && NoDup(ns) && NoDup(more) && (forall n :: n in ns ==> n !in more)
    requires Refired(b, c, more, now, |ns|)
    requires forall j :: 0 <= j < |more| ==> more[j] in a
    ensures Tracked(a, c, ns + more, now, moves)
  {
    var all := ns + more;
    forall j | 0 <= j < |all| && AlwaysAlone(all[j], moves)
      ensures all[j] in c && c[all[j]] == Again(a[all[j]], now(j))
    {
      if j < |ns| {
        assert all[j] == ns[j] && ns[j] in ns;
        assert Agree(b, c, ns[j]);
      } else {
        var n := more[j - |ns|];
        assert all[j] == n && n in more && n !in ns;
        assert Agree(a, b, n);
      }
    }
    forall n | n in a.Keys + c.Keys && AlwaysAlone(n, moves) ensures n in all || Agree(a, c, n) {
      assert n in all <==> n in ns || n in more;
    }
    forall n | n in a && AlwaysSpared(n, moves) ensures n in c {
      assert n in b;
      if n in more {
        var j :| 0 <= j < |more| && more[j] == n;
      } else {
        assert Agree(b, c, n);
      }
    }
  }

  /** With a caller that changes nothing, every timer handled is re-armed and the others stay. */
  lemma TrackedAlone(a: Deadlines, b: Deadlines, ns: seq<Channel>, now: nat -> int, moves: nat -> seq<Move>)
    requires Tracked(a, b, ns, now, moves) && forall i :: moves(i) == []
    ensures Refired(a, b, ns, now, 0)
  {
    forall n ensures AlwaysAlone(n, moves) {
    }
  }

  lemma TrackedStart(a: Deadlines, now: nat -> int, moves: nat -> seq<Move>)
    ensures Tracked(a, a, [], now, moves)
  {
  }

  /** Owners of parts are parts of the owners. */
  lemma OwnersSplit(p: seq<SkipNode>, q: seq<SkipNode>, ns: seq<Channel>, all: seq<Channel>)
    returns (rest: seq<Channel>)
    requires OwnedAll(p + q, all) && OwnedAll(p, ns)
    ensures all == ns + rest && OwnedAll(q, rest)
  {
    rest := all[|ns|..];
    forall j | 0 <= j < |p| ensures all[j] == ns[j] {
      assert (p + q)[j] == p[j];
    }
    forall j | 0 <= j < |q| ensures OwnedBy(q[j], rest[j]) {
      assert (p + q)[|p| + j] == q[j] && rest[j] == all[|p| + j];
    }
  }

  lemma OwnersConcat(p: seq<SkipNode>, ns: seq<Channel>, q: seq<SkipNode>, ms: seq<Channel>)
    requires OwnedAll(p, ns) && OwnedAll(q, ms)
    ensures OwnedAll(p + q, ns + ms)
  {
  }

  // ----- a whole drain

  lemma MovedNone(a: Deadlines, moves: seq<Move>)
    ensures Moved(a, a, moves)
  {
  }

  /** What a drain has done so far, and the messages it gave; the timers due at its start belong to `owners`. */
  ghost predicate SoFar(log: Log, messages: seq<Channel>, owners: seq<Channel>, b: Deadlines, rest: seq<SkipNode>,
                        now: nat -> int, passes: nat -> bool, moves: nat -> seq<Move>) {
    match log
    case Log(a, due, handled, fired) =>
      && due == fired + rest && OwnedAll(fired, handled)
      && OwnedAll(due, owners) && NoDup(owners) && (forall j :: 0 <= j < |owners| ==> owners[j] in a)
      && Tracked(a, b, handled, now, moves) && messages == Passed(handled, passes, 0)
  }

  lemma SoFarStart(a: Deadlines, due: seq<SkipNode>, owners: seq<Channel>,
                   now: nat -> int, passes: nat -> bool, moves: nat -> seq<Move>)
    requires OwnedAll(due, owners) && NoDup(owners) && forall j :: 0 <= j < |owners| ==> owners[j] in a
    ensures SoFar(Log(a, due, [], []), [], owners, a, due, now, passes, moves)
  {
    assert [] + due == due;
    TrackedStart(a, now, moves);
  }

  function Longer(log: Log, handled: seq<Channel>, fired: seq<SkipNode>): Log {
    log.(handled := log.handled + handled, fired := log.fired + fired)
  }

  function WithMessage(messages: seq<Channel>, msg: Channel?): seq<Channel> {
    if msg == null then messages else messages + [msg]
  }

  /** One call of _tm_next, from the timers `b` to `c`, and the caller's changes, from `c` to `d`. */
  lemma SoFarNext(log: Log, messages: seq<Channel>, owners: seq<Channel>, b: Deadlines, due: seq<SkipNode>,
                  handled: seq<Channel>, fired: seq<SkipNode>, msg: Channel?, c: Deadlines, rest: seq<SkipNode>,
                  d: Deadlines, now: nat -> int, passes: nat -> bool, moves: nat -> seq<Move>, i: nat, current: int)
    requires SoFar(log, messages, owners, b, due, now, passes, moves)
    requires Recorded(Log(b, due, handled, fired), c, rest, now, |log.handled|, current)
    requires Filtered(handled, msg, passes, |log.handled|) && Moved(c, d, moves(i))
    ensures SoFar(Longer(log, handled, fired), WithMessage(messages, msg), owners, d, rest, now, passes, moves)
    ensures |rest| == |due| - |handled|
  {
    Assoc(log.fired, fired, rest);
    OwnersConcat(log.fired, log.handled, fired, handled);
    var all := log.handled + handled;
    var more := OwnersSplit(log.fired + fired, rest, all, owners);
    NoDupConcat(all, more);
    forall j | 0 <= j < |handled| ensures handled[j] in log.table {
      assert owners[|log.handled| + j] == all[|log.handled| + j] == handled[j];
    }
    TrackedNext(log.table, b, log.handled, c, handled, d, now, moves, i);
    FilteredPassed(handled, msg, passes, |log.handled|);
    PassedConcat(log.handled, handled, passes, 0);
  }

  /** The end of a drain: every timer due at its start has been handled. */
  lemma SoFarEnd(log: Log, messages: seq<Channel>, owners: seq<Channel>, b: Deadlines,
                 now: nat -> int, passes: nat -> bool, moves: nat -> seq<Move>)
    requires SoFar(log, messages, owners, b, [], now, passes, moves)
    ensures OwnedAll(log.due, log.handled) && NoDup(log.handled) && Tracked(log.table, b, log.handled, now, moves)
    ensures messages == Passed(log.handled, passes, 0)
  {
    assert log.fired + [] == log.fired;
    forall j | 0 <= j < |owners| ensures owners[j] == log.handled[j] {
      assert OwnedBy(log.due[j], owners[j]) && OwnedBy(log.fired[j], log.handled[j]);
    }
    assert owners == log.handled;
  }
}
