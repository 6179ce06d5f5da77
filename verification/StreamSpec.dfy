/**
 Sending on a stream as values: what the system takes of the bytes handed over,
 what is left in the cache, and when a flush gets stuck.
 */
module StreamSpec {
  import opened Basics
  import opened SendBuffer

  // ----- flushing

  /** Either all or part was sent, or the system refused and the teardown that follows never ends. */
  datatype Flushed = Sent(all: bool) | Stuck

  /** What is left in the cache, what the system took, and how it went. */
  datatype Flow = Flow(left: Blocks, taken: seq<Byte>, outcome: Flushed)

  /** Each block is offered whole; a refusal ends it badly, an answer that takes less ends it for now. */
  ghost function Flush(bs: Blocks, answers: nat -> int, i: nat): Flow
    decreases |bs|
  {
    if bs == [] then Flow([], [], Sent(true))
    else if answers(i) < 0 then Flow(bs, [], Stuck)
    else if answers(i) < |bs[0]| then Flow([bs[0][answers(i)..]] + bs[1..], bs[0][..answers(i)], Sent(false))
    else
      var rest := Flush(bs[1..], answers, i + 1);
      rest.(taken := bs[0] + rest.taken)
  }

  /** The system takes the first k blocks whole, one answer each. */
  ghost predicate TakenWhole(bs: Blocks, answers: nat -> int, i: nat, k: nat) {
    k <= |bs| && forall j :: 0 <= j < k ==> |bs[j]| <= answers(i + j)
  }

  /** It refuses the block at k after that. */
  ghost predicate RefusedAt(bs: Blocks, answers: nat -> int, i: nat, k: nat) {
    k < |bs| && TakenWhole(bs, answers, i, k) && answers(i + k) < 0
  }

  lemma TakenNext(bs: Blocks, answers: nat -> int, i: nat, k: nat)
    requires bs != [] && 0 < k <= |bs|
    ensures TakenWhole(bs, answers, i, k) <==> |bs[0]| <= answers(i) && TakenWhole(bs[1..], answers, i + 1, k - 1)
  {
    var t := bs[1..];
    if TakenWhole(bs, answers, i, k) {
      assert |bs[0]| <= answers(i + 0);
      forall j | 0 <= j < k - 1 ensures |t[j]| <= answers(i + 1 + j) {
        assert t[j] == bs[j + 1] && |bs[j + 1]| <= answers(i + (j + 1));
      }
    }
    if |bs[0]| <= answers(i) && TakenWhole(t, answers, i + 1, k - 1) {
      forall j | 0 <= j < k ensures |bs[j]| <= answers(i + j) {
        if j > 0 { assert bs[j] == t[j - 1] && |t[j - 1]| <= answers(i + 1 + (j - 1)); }
      }
    }
  }

  /** A flush gets stuck exactly if some block is refused after all those before it were taken whole. */
  lemma {:induction false} StuckIff(bs: Blocks, answers: nat -> int, i: nat)
    ensures Flush(bs, answers, i).outcome.Stuck? <==> exists k: nat :: RefusedAt(bs, answers, i, k)
    decreases |bs|
  {
    if bs != [] {
      var t, i' := bs[1..], i + 1;
      StuckIff(t, answers, i');
      if answers(i) < 0 {
        assert RefusedAt(bs, answers, i, 0);
      } else if exists k: nat :: RefusedAt(bs, answers, i, k) {
        var k: nat :| RefusedAt(bs, answers, i, k);
        assert k > 0;
        TakenNext(bs, answers, i, k);
        assert answers(i' + (k - 1)) < 0;
        assert RefusedAt(t, answers, i', k - 1);
      } else if answers(i) >= |bs[0]| && exists k: nat :: RefusedAt(t, answers, i', k) {
        var k: nat :| RefusedAt(t, answers, i', k);
        TakenNext(bs, answers, i, k + 1);
        assert answers(i + (k + 1)) < 0;
        assert RefusedAt(bs, answers, i, k + 1);
      }
    }
  }

  /** And all is sent exactly if every block is taken whole. */
  lemma {:induction false} AllSentIff(bs: Blocks, answers: nat -> int, i: nat)
    requires Unsent(bs)
    ensures var f := Flush(bs, answers, i);
            && (f.outcome == Sent(true) <==> TakenWhole(bs, answers, i, |bs|))
            && (f.outcome == Sent(true) <==> f.left == [])
            && Unsent(f.left)
    decreases |bs|
  {
    if bs != [] {
      var t := bs[1..];
      assert forall j :: 0 <= j < |t| ==> t[j] == bs[j + 1];
      AllSentIff(t, answers, i + 1);
      TakenNext(bs, answers, i, |bs|);
    }
  }

  /** A flush moves bytes from the front of the cache to the wire, and loses none. */
  lemma {:induction false} FlushConserves(bs: Blocks, answers: nat -> int, i: nat)
    ensures var f := Flush(bs, answers, i); f.taken + Flat(f.left) == Flat(bs)
    decreases |bs|
  {
    if bs != [] && answers(i) >= |bs[0]| {
      FlushConserves(bs[1..], answers, i + 1);
    } else if bs != [] && answers(i) >= 0 {
      var a := answers(i);
      assert ([bs[0][a..]] + bs[1..])[1..] == bs[1..];
      assert bs[0] == bs[0][..a] + bs[0][a..];
    }
  }

  // ----- sending

  /** The bytes the system has taken so far, and what is cached. */
  datatype Wire = Wire(taken: seq<Byte>, blocks: Blocks)

  /** Behind cached bytes everything is cached; else what the system does not take at once. */
  ghost function Given(w: Wire, buf: seq<Byte>, answer: nat): Wire {
    if buf == [] then w
    else if w.blocks != [] then w.(blocks := w.blocks + [buf])
    else if answer < |buf| then Wire(w.taken + buf[..answer], [buf[answer..]])
    else Wire(w.taken + buf, [])
  }

  ghost function Flushing(w: Wire, answers: nat -> int): Wire {
    var f := Flush(w.blocks, answers, 0);
    Wire(w.taken + f.taken, f.left)
  }

  /** A flush under way has come from `w0` to `w` with i answers; it goes on, or has ended without a refusal. */
  ghost predicate Onward(w0: Wire, w: Wire, answers: nat -> int, i: nat, again: bool) {
    var f0, f := Flush(w0.blocks, answers, 0), Flush(w.blocks, answers, i);
    if again then w.taken + f.taken == w0.taken + f0.taken && f.left == f0.left && f.outcome == f0.outcome
    else w == Flushing(w0, answers) && f0.outcome.Sent?
  }

  lemma OnwardStuck(w0: Wire, w: Wire, answers: nat -> int, i: nat)
    requires Onward(w0, w, answers, i, true) && w.blocks != [] && answers(i) < 0
    ensures w == Flushing(w0, answers) && Flush(w0.blocks, answers, 0).outcome == Stuck
  {
    assert w.taken + [] == w.taken;
  }

  lemma OnwardNext(w0: Wire, w: Wire, answers: nat -> int, i: nat)
    requires Onward(w0, w, answers, i, true) && w.blocks != [] && answers(i) >= 0
    ensures var a, b, rest := answers(i), w.blocks[0], w.blocks[1..];
            if a < |b| then Onward(w0, Wire(w.taken + b[..a], [b[a..]] + rest), answers, i + 1, false)
            else Onward(w0, Wire(w.taken + b, rest), answers, i + 1, rest != [])
  {
    var f := Flush(w.blocks[1..], answers, i + 1);
    Assoc(w.taken, w.blocks[0], f.taken);
    assert w.blocks[1..] == [] ==> w.taken + w.blocks[0] + [] == w.taken + w.blocks[0];
  }

  lemma OnwardEnd(w0: Wire, w: Wire, answers: nat -> int, i: nat)
    requires Onward(w0, w, answers, i, false) && Unsent(w0.blocks)
    ensures w == Flushing(w0, answers) && Flush(w0.blocks, answers, 0).outcome == Sent(w.blocks == [])
  {
    AllSentIff(w0.blocks, answers, 0);
  }

  // ----- a connection's whole traffic

  /** A connection is open, or the system refused a send and it is down, or a refused flush never came back. */
  datatype Fate = Open | Down | Hung

  datatype Conn = Conn(wire: Wire, fate: Fate)

  /** What can happen on a connected stream: the caller sends, or asks to be told, or the socket can be written. */
  datatype StreamOp = Give(buf: seq<Byte>, answer: int) | Writable(answers: nat -> int) | Notify(value: bool)

  /** Nothing is cached, so the system is asked, and it refuses. */
  predicate Refused(w: Wire, buf: seq<Byte>, answer: int) {
    buf != [] && w.blocks == [] && answer < 0
  }

  function AtLeastZero(answer: int): nat {
    if answer < 0 then 0 else answer
  }

  ghost function Step(c: Conn, op: StreamOp): Conn {
    if c.fate != Open then c
    else
      match op
      case Give(buf, answer) =>
        if Refused(c.wire, buf, answer) then c.(fate := Down) else c.(wire := Given(c.wire, buf, AtLeastZero(answer)))
      case Writable(answers) =>
        Conn(Flushing(c.wire, answers), if Flush(c.wire.blocks, answers, 0).outcome == Stuck then Hung else Open)
      case Notify(_) => c
  }

  ghost function Run(c: Conn, ops: seq<StreamOp>): Conn
    decreases |ops|
  {
    if ops == [] then c else Run(Step(c, ops[0]), ops[1..])
  }

  /** The bytes of a send that did not fail. */
  ghost function Handed(c: Conn, op: StreamOp): seq<Byte> {
    if c.fate == Open && op.Give? && !Refused(c.wire, op.buf, op.answer) then op.buf else []
  }

  /** The bytes handed over by all such sends, in order. */
  ghost function Bytes(c: Conn, ops: seq<StreamOp>): seq<Byte>
    decreases |ops|
  {
    if ops == [] then [] else Handed(c, ops[0]) + Bytes(Step(c, ops[0]), ops[1..])
  }

  lemma Assoc(a: seq<Byte>, b: seq<Byte>, c: seq<Byte>)
    ensures a + b + c == a + (b + c)
  {
  }

  lemma GivenConserves(w: Wire, buf: seq<Byte>, answer: nat)
    ensures var w' := Given(w, buf, answer); w'.taken + Flat(w'.blocks) == w.taken + Flat(w.blocks) + buf
  {
    if buf == [] {
    } else if w.blocks != [] {
      FlatAppend(w.blocks, buf);
      Assoc(w.taken, Flat(w.blocks), buf);
    } else if answer < |buf| {
      var rest := [buf[answer..]];
      assert rest[1..] == [] && Flat(rest) == buf[answer..];
      assert buf == buf[..answer] + buf[answer..];
    }
  }

  lemma StepConserves(c: Conn, op: StreamOp)
    ensures var w, w' := c.wire, Step(c, op).wire;
            w'.taken + Flat(w'.blocks) == w.taken + Flat(w.blocks) + Handed(c, op)
  {
    if op.Give? {
      GivenConserves(c.wire, op.buf, AtLeastZero(op.answer));
    } else if op.Writable? {
      var f := Flush(c.wire.blocks, op.answers, 0);
      FlushConserves(c.wire.blocks, op.answers, 0);
      Assoc(c.wire.taken, f.taken, Flat(f.left));
    }
  }

  /**
   However sends and flushes interleave, and however little the system takes each time, what it has
   taken followed by what is cached is all that was handed over, in order.
   */
  lemma {:induction false} RunConserves(c: Conn, ops: seq<StreamOp>)
    ensures var w, w' := c.wire, Run(c, ops).wire;
            w'.taken + Flat(w'.blocks) == w.taken + Flat(w.blocks) + Bytes(c, ops)
    decreases |ops|
  {
    if ops != [] {
      StepConserves(c, ops[0]);
      RunConserves(Step(c, ops[0]), ops[1..]);
      Assoc(c.wire.taken + Flat(c.wire.blocks), Handed(c, ops[0]), Bytes(Step(c, ops[0]), ops[1..]));
    }
  }

  /** Nothing happens any more on a connection that is not open. */
  lemma {:induction false} RunStops(c: Conn, ops: seq<StreamOp>)
    requires c.fate != Open
    ensures Run(c, ops) == c
    decreases |ops|
  {
    if ops != [] { RunStops(c, ops[1..]); }
  }
}
