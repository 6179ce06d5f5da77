/**
 The cache of bytes a channel could not send yet: a chain of blocks, oldest
 first, the first one perhaps sent in part.
 */
module SendBuffer {
  import opened Basics
  import opened QueueSpec

  const MNET_BUF_SIZE := 64 * 1024

  // ----- the cache as a value: the unsent bytes of each block

  type Blocks = seq<seq<Byte>>

  ghost function Flat(bs: Blocks): seq<Byte> {
    if bs == [] then [] else bs[0] + Flat(bs[1..])
  }

  ghost predicate Unsent(bs: Blocks) {
    forall i :: 0 <= i < |bs| ==> bs[i] != []
  }

  /** `n` bytes fewer, from the front. */
  ghost function Drained(bs: Blocks, n: nat): Blocks {
    if bs == [] || n == 0 then bs
    else if n < |bs[0]| then [bs[0][n..]] + bs[1..]
    else Drained(bs[1..], n - |bs[0]|)
  }

  /** What is left of a stream when `n` bytes have gone. */
  ghost function Rest(s: seq<Byte>, n: nat): seq<Byte> {
    if n <= |s| then s[n..] else []
  }

  lemma {:induction false} FlatAppend(bs: Blocks, b: seq<Byte>)
    ensures Flat(bs + [b]) == Flat(bs) + b
  {
    if bs == [] {
      assert [b][1..] == [];
    } else {
      assert (bs + [b])[1..] == bs[1..] + [b];
      FlatAppend(bs[1..], b);
    }
  }

  /** Draining takes bytes off the front of the stream, and only that. */
  lemma {:induction false} DrainedFlat(bs: Blocks, n: nat)
    requires Unsent(bs)
    ensures Unsent(Drained(bs, n))
    ensures Flat(Drained(bs, n)) == Rest(Flat(bs), n)
  {
    if bs == [] || n == 0 {
    } else if n < |bs[0]| {
      var rest := [bs[0][n..]] + bs[1..];
      assert rest[1..] == bs[1..];
      assert forall i :: 1 <= i < |bs| ==> rest[i] == bs[i];
    } else {
      DrainedFlat(bs[1..], n - |bs[0]|);
      var m := n - |bs[0]|;
      if m <= |Flat(bs[1..])| { assert Flat(bs)[n..] == Flat(bs[1..])[m..]; }
    }
  }

  lemma DrainedStep(b: seq<Byte>, rest: Blocks, n: nat)
    requires 0 < n
    ensures Drained([b] + rest, n) == if n < |b| then [b[n..]] + rest else Drained(rest, n - |b|)
  {
    assert ([b] + rest)[1..] == rest;
  }

  // ----- the chain

  class Block {
    var ptr: nat
    const buf: seq<Byte>
    var next: Block?

    constructor (buf: seq<Byte>)
      ensures this.buf == buf && ptr == 0 && next == null
    {
      this.buf, ptr, next := buf, 0, null;
    }

    /** _rwb_buffered. */
    function Buffered(): int
      reads this
    {
      |buf| - ptr
    }
  }

  /** The new block becomes the last one's successor. */
  method LinkLast(ghost c: seq<Block>, last: Block, b: Block)
    requires c != [] && Distinct(c) && Linked(c) && last == c[|c| - 1] && b !in c && b.next == null
    modifies last`next
    ensures Distinct(c + [b]) && Linked(c + [b])
  {
    last.next := b;
    forall i | 0 <= i < |c| ensures c[i].next == Succ(c + [b], i) {
      assert i + 1 < |c| ==> c[i].next == old(c[i].next) == Succ(c, i);
    }
  }

  class SendCache {
    var head: Block?
    var tail: Block?
    var count: nat
    ghost var chain: seq<Block>
    ghost var blocks: Blocks        // what is left of each block
    ghost var owned: set<Block>     // all blocks that ever were in the chain

    /** Linked in order. */
    ghost predicate Chained()
      reads `head, `tail, `count, `chain, chain
    {
      && count == |chain|
      && Distinct(chain) && Linked(chain)
      && (if chain == [] then head == null && tail == null else head == chain[0] && tail == chain[|chain| - 1])
    }

    /** Every block has something left to send. */
    ghost predicate Kept()
      reads `head, `tail, `count, `chain, chain
    {
      Chained() && HaveLeft(chain)
    }

    ghost predicate Valid()
      reads this, owned
    {
      (forall k :: 0 <= k < |chain| ==> chain[k] in owned) && Kept() && blocks == AllLeft(chain)
    }

    lemma Facts()
      requires Valid()
      ensures Unsent(blocks) && |blocks| == count
    {
      AllLeftUnsent(chain);
    }

    constructor ()
      ensures Valid() && blocks == [] && count == 0 && owned == {}
    {
      head, tail, count, chain, blocks, owned := null, null, 0, [], [], {};
    }

    /** _rwb_create_tail. */
    method CreateTail(buf: seq<Byte>) returns (b: Block)
      requires Chained()
      modifies `head, `tail, `count, `chain, chain`next
      ensures Chained() && fresh(b) && chain == old(chain) + [b] && b.buf == buf && b.ptr == 0
    {
      b := new Block(buf);
      if count <= 0 {
        head, tail := b, b;
      } else {
        LinkLast(chain, tail, b);
        tail := b;
      }
      count := count + 1;
      chain := chain + [b];
    }

    /** _rwb_cache: a new block at the end. */
    method Cache(buf: seq<Byte>)
      requires Valid() && buf != []
      modifies this, owned
      ensures Valid() && blocks == old(blocks) + [buf] && count > 0
      ensures forall b :: b in owned ==> fresh(b) || b in old(owned)
    {
      var b := CreateTail(buf);
      assert HaveLeft(old(chain)) && AllLeft(old(chain)) == old(AllLeft(chain));
      AllLeftAppend(old(chain), b);
      blocks, owned := blocks + [buf], owned + {b};
    }

    /** _rwb_destroy_head: the first block goes, if nothing of it is left. */
    method DestroyHead()
      requires Chained() && chain != [] && chain[0].ptr <= |chain[0].buf|
      requires HaveLeft(chain[1..])
      modifies `head, `tail, `count, `chain
      ensures Kept()
      ensures chain == if old(chain[0].ptr) == |old(chain[0]).buf| then old(chain)[1..] else old(chain)
    {
      ChainTail(chain);
      if head.Buffered() <= 0 {
        head := head.next;
        count := count - 1;
        if count <= 0 {
          head, tail := null, null;
        }
        chain := chain[1..];
      }
    }

    /** Counts up to `n` bytes of the first block as sent. */
    method Advance(n: nat) returns (left: nat)
      requires Kept() && chain != []
      modifies chain`ptr
      ensures Chained() && chain[0].ptr <= |chain[0].buf| && HaveLeft(chain[1..])
      ensures AllLeft(chain[1..]) == old(AllLeft(chain[1..]))
      ensures var l := old(Left(chain[0]));
              Left(chain[0]) == (if n < |l| then l[n..] else []) && left == if n < |l| then 0 else n - |l|
    {
      ChainTail(chain);
      var len := if n < head.Buffered() then n else head.Buffered();
      left := n - len;
      ghost var rest := chain[1..];
      head.ptr := head.ptr + len;
      assert AllLeft(rest) == old(AllLeft(rest)) && HaveLeft(rest);
    }

    /** One turn of _rwb_drain. */
    method DrainStep(n: nat) returns (left: nat)
      requires Kept() && chain != [] && n > 0
      modifies `head, `tail, `count, `chain, chain`ptr
      ensures Kept() && left < n && Drained(AllLeft(chain), left) == Drained(old(AllLeft(chain)), n)
      ensures chain == old(chain) || chain == old(chain)[1..]
    {
      ghost var l, bs := Left(chain[0]), AllLeft(chain[1..]);
      assert l != [];
      DrainedStep(l, bs, n);
      left := Advance(n);
      DestroyHead();
      assert AllLeft(chain) == if n < |l| then [l[n..]] + bs else bs;
    }

    /** The loop of _rwb_drain. */
    method DrainBlocks(n: nat)
      requires Kept()
      modifies `head, `tail, `count, `chain, chain`ptr
      ensures Kept() && AllLeft(chain) == Drained(old(AllLeft(chain)), n)
      ensures forall k :: 0 <= k < |chain| ==> chain[k] in old(chain)
    {
      var left := n;
      while count > 0 && left > 0
        invariant Kept() && Drained(AllLeft(chain), left) == Drained(old(AllLeft(chain)), n)
        invariant forall k :: 0 <= k < |chain| ==> chain[k] in old(chain)
        decreases left
      {
        left := DrainStep(left);
      }
    }

    /** _rwb_drain. */
    method Drain(n: nat)
      requires Valid()
      modifies this, owned
      ensures Valid() && blocks == Drained(old(blocks), n) && owned == old(owned)
    {
      DrainBlocks(n);
      blocks := Drained(blocks, n);
    }

    /** _rwb_drain_param: what is left of the first block. */
    method Front() returns (buf: seq<Byte>)
      requires Valid() && count > 0
      ensures blocks != [] && buf == blocks[0] && buf != []
    {
      buf := head.buf[head.ptr..];
    }

    /**
     The first `turns` turns of _rwb_destroy's loop. However many it is given, the loop is over
     exactly when there was nothing in the cache, and no turn changes anything.
     */
    method Destroy(turns: nat) returns (over: bool)
      requires Valid()
      modifies this
      ensures Valid() && blocks == old(blocks) && owned == old(owned) && count == old(count)
      ensures over <==> old(count) == 0
    {
      var i := 0;
      while count > 0 && i < turns
        invariant Kept() && chain == old(chain) && blocks == old(blocks) && owned == old(owned)
      {
        ChainTail(chain);
        DestroyHead();
        i := i + 1;
      }
      over := count == 0;
    }

    /** mnet_chann_cached: an estimate, exact only about whether there is anything. */
    function Cached(): (n: int)
      requires Valid()
      reads this, owned
      ensures n > 0 <==> count > 0
      ensures n >= 0
    {
      if count > 0 then head.Buffered() + (count - 1) * MNET_BUF_SIZE else 0
    }
  }

  ghost function Succ(c: seq<Block>, i: nat): Block? {
    if i + 1 < |c| then c[i + 1] else null
  }

  ghost predicate Linked(c: seq<Block>)
    reads c`next
  {
    forall i {:trigger c[i].next} :: 0 <= i < |c| ==> c[i].next == Succ(c, i)
  }

  ghost predicate HaveLeft(c: seq<Block>)
    reads c`ptr
  {
    forall i :: 0 <= i < |c| ==> c[i].ptr < |c[i].buf|
  }

  lemma ChainTail(c: seq<Block>)
    requires c != [] && Distinct(c) && Linked(c)
    ensures Distinct(c[1..]) && Linked(c[1..]) && c[0] !in c[1..]
    ensures HaveLeft(c) <==> HaveLeft(c[1..]) && c[0].ptr < |c[0].buf|
    ensures |c| > 1 ==> c[0].next == c[1..][0] && c[|c| - 1] == c[1..][|c| - 2]
  {
    var t := c[1..];
    forall i | 0 <= i < |t| ensures t[i].next == Succ(t, i) {
      assert t[i] == c[i + 1] && c[i + 1].next == Succ(c, i + 1);
    }
    if HaveLeft(t) && c[0].ptr < |c[0].buf| {
      forall i | 0 <= i < |c| ensures c[i].ptr < |c[i].buf| {
        if i > 0 { assert c[i] == t[i - 1]; }
      }
    }
  }

  /** What is left of a block. */
  ghost function Left(b: Block): seq<Byte>
    reads b`ptr
  {
    if b.ptr <= |b.buf| then b.buf[b.ptr..] else []
  }

  ghost function AllLeft(chain: seq<Block>): (bs: Blocks)
    reads chain`ptr
  {
    if chain == [] then [] else [Left(chain[0])] + AllLeft(chain[1..])
  }

  lemma {:induction false} AllLeftAppend(c: seq<Block>, b: Block)
    ensures AllLeft(c + [b]) == AllLeft(c) + [Left(b)]
  {
    if c != [] {
      assert (c + [b])[1..] == c[1..] + [b];
      AllLeftAppend(c[1..], b);
    }
  }

  lemma {:induction false} AllLeftUnsent(c: seq<Block>)
    requires HaveLeft(c)
    ensures Unsent(AllLeft(c)) && |AllLeft(c)| == |c|
  {
    if c != [] {
      assert forall i :: 0 <= i < |c[1..]| ==> c[1..][i] == c[i + 1];
      AllLeftUnsent(c[1..]);
    }
  }
}
