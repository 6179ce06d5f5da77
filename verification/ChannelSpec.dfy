/**
 One channel's sending side as a value: what every operation makes of it, and
 which operations never come back.
 */
module ChannelSpec {
  import opened Basics
  import opened SendBuffer
  import opened StreamSpec
  import opened MnetData

  /** The state, the bytes taken and cached, and whether the caller asked to be told when it can send. */
  datatype Link = Link(state: ChannelState, wire: Wire, notify: bool)

  datatype ChannelOp =
    | DoConnect(fd: int)
    | DoConnected
    | DoSend(buf: seq<Byte>, answer: int)
    | DoWritable(answers: nat -> int)
    | DoNotify(value: bool)
    | DoDisconnect

  /** A channel that can be sent on. */
  predicate Sendable(s: ChannelState) {
    s == Connected || s == Listening
  }

  /** What an operation does to a channel in its state, or as much of it as gets done. */
  ghost function LinkAfter(l: Link, op: ChannelOp): Link {
    match op
    case DoConnect(fd) => if l.state == Disconnected && fd > 0 then l.(state := Connecting) else l
    case DoConnected => if l.state == Connecting then l.(state := Connected) else l
    case DoSend(buf, answer) =>
      if buf == [] || !Sendable(l.state) then l
      else if Refused(l.wire, buf, answer) then l.(state := Disconnected)
      else l.(wire := Given(l.wire, buf, AtLeastZero(answer)))
    case DoWritable(answers) => if l.state == Connected then l.(wire := Flushing(l.wire, answers)) else l
    case DoNotify(value) => if l.state == Connected then l.(notify := value) else l
    case DoDisconnect => if l.wire.blocks != [] then l else TornDown(l)
  }

  /** A channel without its socket. */
  function TornDown(l: Link): Link {
    l.(state := if l.state == Closed then Closed else Disconnected)
  }

  /** The call never comes back: a teardown with bytes cached, or a block refused in a flush. */
  ghost predicate Hangs(l: Link, op: ChannelOp) {
    match op
    case DoWritable(answers) => l.state == Connected && exists k: nat :: RefusedAt(l.wire.blocks, answers, 0, k)
    case DoDisconnect => l.wire.blocks != []
    case _ => false
  }

  /** The bytes an operation hands over, if it does not fail. */
  ghost function HandedOver(l: Link, op: ChannelOp): seq<Byte> {
    if op.DoSend? && Sendable(l.state) && !Refused(l.wire, op.buf, op.answer) then op.buf else []
  }

  /** Taken and cached bytes together are those handed over, whatever else is done to the channel. */
  lemma LinkConserves(l: Link, op: ChannelOp)
    ensures var w, w' := l.wire, LinkAfter(l, op).wire;
            w'.taken + Flat(w'.blocks) == w.taken + Flat(w.blocks) + HandedOver(l, op)
  {
    match op
    case DoSend(buf, answer) => GivenConserves(l.wire, buf, AtLeastZero(answer));
    case DoWritable(answers) =>
      var f := Flush(l.wire.blocks, answers, 0);
      FlushConserves(l.wire.blocks, answers, 0);
      Assoc(l.wire.taken, f.taken, Flat(f.left));
    case _ =>
  }

  /** A channel is closed by no operation, and opened again by none. */
  lemma LinkStaysClosed(l: Link, op: ChannelOp)
    ensures LinkAfter(l, op).state == Closed <==> l.state == Closed
  {
  }
}
