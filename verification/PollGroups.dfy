/**
 Poll groups: sockets share kernel helper handles, at most 32 to a handle. The
 groups stand in a queue that reorganises itself so that a group with room, if
 there is one, is always at the end. Groups are freed only with the port.
 */
module PollGroups {
  import opened Basics
  import opened QueueSpec

  type Group = nat

  /** The queue of a port's groups in two parts, the slots taken of each group, a name for the next. */
  datatype Groups = Groups(full: seq<Group>, open: seq<Group>, size: map<Group, nat>, next: Group)

  const MAX_GROUP_SIZE := 32

  // ----- slots in use, over all groups

  ghost function Sum(size: map<Group, nat>): nat
  {
    if size == map[] then 0
    else
      var g :| g in size;
      size[g] + Sum(size - {g})
  }

  lemma {:induction false} SumPick(size: map<Group, nat>, g: Group)
    requires g in size
    ensures Sum(size) == size[g] + Sum(size - {g})
    decreases |size|
  {
    var h :| h in size && Sum(size) == size[h] + Sum(size - {h});
    if h != g {
      SumPick(size - {h}, g);
      SumPick(size - {g}, h);
      assert size - {h} - {g} == size - {g} - {h};
    }
  }

  lemma SumUpdate(size: map<Group, nat>, g: Group, n: nat)
    ensures Sum(size[g := n]) == Sum(size) - (if g in size then size[g] else 0) + n
  {
    SumPick(size[g := n], g);
    assert size[g := n] - {g} == size - {g};
    if g in size {
      SumPick(size, g);
    } else {
      assert size - {g} == size;
    }
  }

  lemma {:induction false} SumBound(size: map<Group, nat>)
    requires forall g :: g in size ==> size[g] <= MAX_GROUP_SIZE
    ensures Sum(size) <= MAX_GROUP_SIZE * |size|
    ensures (forall g :: g in size ==> size[g] == MAX_GROUP_SIZE) <==> Sum(size) == MAX_GROUP_SIZE * |size|
    decreases |size|
  {
    if size != map[] {
      var g :| g in size;
      var rest := size - {g};
      SumPick(size, g);
      SumBound(rest);
      assert size.Keys == rest.Keys + {g};
      assert |size| == |rest| + 1;
      assert forall h :: h in size <==> h == g || h in rest;
    }
  }

  // ----- what taking and giving back a slot do

  function Size(s: Groups, g: Group): nat {
    if g in s.size then s.size[g] else 0
  }

  function Grown(s: Groups): Groups {
    s.(open := s.open + [s.next], size := s.size[s.next := 0], next := s.next + 1)
  }

  /** A slot of the last group; a group that this fills moves to the front. */
  function TakenLast(s: Groups): Groups
    requires s.open != []
  {
    var g, n := s.open[|s.open| - 1], Size(s, s.open[|s.open| - 1]) + 1;
    if n == MAX_GROUP_SIZE
    then s.(full := [g] + s.full, open := s.open[..|s.open| - 1], size := s.size[g := n])
    else s.(size := s.size[g := n])
  }

  /** poll_group_acquire; `handleOk` says whether a new helper handle could be had if one was needed. */
  function Acquired(s: Groups, handleOk: bool): Option<(Groups, Group)> {
    if s.open != [] then Some((TakenLast(s), s.open[|s.open| - 1]))
    else if handleOk then Some((TakenLast(Grown(s)), s.next))
    else None
  }

  /** poll_group_release: the group moves to the end, where it will be used next. */
  function Released(s: Groups, g: Group): Groups {
    var s' := s.(size := s.size[g := if Size(s, g) > 0 then Size(s, g) - 1 else 0]);
    if g in s.full then s'.(full := Without(s.full, g), open := s.open + [g])
    else s'.(open := Without(s.open, g) + [g])
  }

  // ----- what they keep

  /** The queue is `a + b`: every group once, first the full ones, then those with room. */
  ghost predicate Consistent(a: seq<Group>, b: seq<Group>, size: map<Group, nat>) {
    && NoDup(a) && NoDup(b) && |a| + |b| == |size|
    && (forall g :: g in size ==> g in a || g in b)
    && (forall g :: g in a ==> g in size && size[g] == MAX_GROUP_SIZE)
    && (forall g :: g in b ==> g in size && size[g] < MAX_GROUP_SIZE)
  }

  /** Looking at the last group tells whether there is any room at all. */
  lemma LastDecides(a: seq<Group>, b: seq<Group>, size: map<Group, nat>)
    requires Consistent(a, b, size)
    ensures Sum(size) <= MAX_GROUP_SIZE * (|a| + |b|)
    ensures b == [] <==> Sum(size) == MAX_GROUP_SIZE * (|a| + |b|)
    ensures b == [] && a != [] ==> a[|a| - 1] in size && size[a[|a| - 1]] == MAX_GROUP_SIZE
    ensures b != [] ==> b[|b| - 1] in size && size[b[|b| - 1]] < MAX_GROUP_SIZE
  {
    SumBound(size);
    if b != [] { assert b[0] in b; }
  }

  lemma GroupAdded(a: seq<Group>, b: seq<Group>, size: map<Group, nat>, g: Group)
    requires Consistent(a, b, size) && g !in size
    ensures Consistent(a, b + [g], size[g := 0])
  {
    NoDupAppend(b, g);
  }

  lemma SameSize(size: map<Group, nat>, g: Group, n: nat)
    requires g in size
    ensures |size[g := n]| == |size|
  {
    assert size[g := n].Keys == size.Keys;
    assert |size[g := n].Keys| == |size.Keys|;
  }

  /** A slot from the last group, which moves to the front when that fills it. */
  lemma TakeSlot(a: seq<Group>, c: seq<Group>, g: Group, size: map<Group, nat>)
    requires Consistent(a, c + [g], size)
    ensures var size' := size[g := size[g] + 1];
            if size'[g] == MAX_GROUP_SIZE then Consistent([g] + a, c, size') else Consistent(a, c + [g], size')
  {
    SameSize(size, g, size[g] + 1);
    NoDupConcat(c, [g]);
    assert g in c + [g];
    assert g !in a;
    NoDupAppend(a, g);
    assert forall h :: h in c ==> h in c + [g];
  }

  /** A slot given back; the group moves to the end, where it will be used next. */
  lemma GiveSlotFull(a: seq<Group>, b: seq<Group>, size: map<Group, nat>, g: Group)
    requires Consistent(a, b, size) && g in a
    ensures Consistent(Without(a, g), b + [g], size[g := size[g] - 1])
  {
    SameSize(size, g, size[g] - 1);
    WithoutKeeps(a, g);
    assert g !in b;
    NoDupAppend(b, g);
  }

  lemma GiveSlotOpen(a: seq<Group>, b: seq<Group>, size: map<Group, nat>, g: Group)
    requires Consistent(a, b, size) && g in b && 0 < size[g]
    ensures Consistent(a, Without(b, g) + [g], size[g := size[g] - 1])
  {
    SameSize(size, g, size[g] - 1);
    WithoutKeeps(b, g);
    assert g !in a;
    NoDupAppend(Without(b, g), g);
  }

  lemma {:induction false} WithoutConcat(a: seq<Group>, b: seq<Group>, g: Group)
    requires g in a ==> g !in b
    ensures Without(a + b, g) == Without(a, g) + Without(b, g)
  {
    if a == [] {
      assert a + b == b;
    } else {
      assert (a + b)[1..] == a[1..] + b;
      if a[0] == g {
        WithoutAbsent(b, g);
      } else {
        WithoutConcat(a[1..], b, g);
      }
    }
  }

  /** The smallest number of groups that `peak` slots fit into. */
  ghost predicate GroupsFor(groups: nat, peak: nat) {
    peak <= MAX_GROUP_SIZE * groups && (groups > 0 ==> MAX_GROUP_SIZE * (groups - 1) < peak)
  }

  lemma GroupsForIsCeiling(groups: nat, peak: nat)
    ensures GroupsFor(groups, peak) <==> groups == (peak + MAX_GROUP_SIZE - 1) / MAX_GROUP_SIZE
  {
  }

  lemma PeakAfter(groups: nat, held: nat, peak: nat)
    requires GroupsFor(groups, peak) && held <= peak
    ensures GroupsFor(groups + if held == MAX_GROUP_SIZE * groups then 1 else 0,
                      if peak < held + 1 then held + 1 else peak)
  {
  }

  /** Full groups first, every group once, and as many groups as the peak once needed. */
  ghost predicate Ok(s: Groups, peak: nat) {
    && Consistent(s.full, s.open, s.size)
    && (forall g :: g in s.size ==> g < s.next)
    && Sum(s.size) <= peak && GroupsFor(|s.full| + |s.open|, peak)
  }

  /** The new peak is the larger of the old one and the slots now in use. */
  function Peak(peak: nat, held: nat): nat {
    if peak < held then held else peak
  }

  lemma TakenLastKeeps(s: Groups)
    requires Consistent(s.full, s.open, s.size) && s.open != []
    ensures var s', g := TakenLast(s), s.open[|s.open| - 1];
            && Consistent(s'.full, s'.open, s'.size) && g in s.size && s'.size == s.size[g := s.size[g] + 1]
            && |s'.full| + |s'.open| == |s.full| + |s.open| && Sum(s'.size) == Sum(s.size) + 1
  {
    var g, c := s.open[|s.open| - 1], s.open[..|s.open| - 1];
    assert s.open == c + [g];
    assert g in s.open;
    TakeSlot(s.full, c, g, s.size);
    SumUpdate(s.size, g, s.size[g] + 1);
  }

  lemma GrownKeeps(s: Groups)
    requires Consistent(s.full, s.open, s.size) && s.next !in s.size
    ensures var u := Grown(s);
            Consistent(u.full, u.open, u.size) && Sum(u.size) == Sum(s.size)
  {
    SumUpdate(s.size, s.next, 0);
    GroupAdded(s.full, s.open, s.size, s.next);
  }

  lemma AcquireKeeps(s: Groups, peak: nat, handleOk: bool, s': Groups, g: Group)
    requires Ok(s, peak) && Acquired(s, handleOk) == Some((s', g))
    ensures s'.size == s.size[g := Size(s, g) + 1]
    ensures Sum(s'.size) == Sum(s.size) + 1 && Ok(s', Peak(peak, Sum(s'.size)))
  {
    LastDecides(s.full, s.open, s.size);
    PeakAfter(|s.full| + |s.open|, Sum(s.size), peak);
    if s.open != [] {
      TakenLastKeeps(s);
    } else {
      NewGroupKeeps(s, s');
    }
  }

  lemma NewGroupKeeps(s: Groups, s': Groups)
    requires Consistent(s.full, s.open, s.size) && s.open == [] && s.next !in s.size
    requires s' == TakenLast(Grown(s))
    ensures Consistent(s'.full, s'.open, s'.size) && s'.size == s.size[s.next := 1]
    ensures |s'.full| + |s'.open| == |s.full| + 1 && Sum(s'.size) == Sum(s.size) + 1
  {
    GrownKeeps(s);
    TakenLastKeeps(Grown(s));
  }

  /** Only a missing helper handle stands in the way, and only when every group is full. */
  lemma AcquireFails(s: Groups, peak: nat, handleOk: bool)
    requires Ok(s, peak)
    ensures Acquired(s, handleOk).None? <==>
            !handleOk && Sum(s.size) == MAX_GROUP_SIZE * (|s.full| + |s.open|)
  {
    LastDecides(s.full, s.open, s.size);
  }

  lemma ReleaseKeeps(s: Groups, peak: nat, g: Group)
    requires Ok(s, peak) && g in s.size && 0 < s.size[g]
    ensures var s' := Released(s, g);
            && Ok(s', peak) && s'.size == s.size[g := s.size[g] - 1]
            && s'.size[g] < MAX_GROUP_SIZE && Sum(s'.size) == Sum(s.size) - 1
  {
    SumUpdate(s.size, g, s.size[g] - 1);
    if g in s.full {
      GiveSlotFull(s.full, s.open, s.size, g);
      WithoutKeeps(s.full, g);
    } else {
      GiveSlotOpen(s.full, s.open, s.size, g);
      WithoutKeeps(s.open, g);
    }
  }

  lemma FirstFrom(a: seq<Group>, b: seq<Group>)
    ensures a != [] ==> (a + b)[0] in a
  {
  }

  // ----- the queue of a port

  class PollGroupQueue {
    var queue: seq<Group>
    var size: map<Group, nat>
    var next: Group
    ghost var full: seq<Group>    // the front of the queue
    ghost var open: seq<Group>    // the rest of it

    ghost function Now(): Groups
      reads this
    {
      Groups(full, open, size, next)
    }

    /** The queue is its full groups followed by those with room. */
    ghost predicate Valid()
      reads this
    {
      && queue == full + open
      && (forall g :: g in full ==> g in size && size[g] == MAX_GROUP_SIZE)
      && (forall g :: g in open ==> g in size && size[g] < MAX_GROUP_SIZE)
    }

    constructor ()
      ensures Valid() && Now() == Groups([], [], map[], 0)
    {
      queue, size, next, full, open := [], map[], 0, [], [];
    }

    /** poll_group_acquire; `asked` tells whether a new group was needed, and with it the port's IOCP handle. */
    method Acquire(handleOk: bool) returns (r: Option<Group>, asked: bool)
      requires Valid()
      modifies this
      ensures r.None? <==> Acquired(old(Now()), handleOk).None?
      ensures r.None? ==> Now() == old(Now())
      ensures r.Some? ==> (Now(), r.value) == Acquired(old(Now()), handleOk).value
      ensures queue == full + open && (asked <==> old(open) == [])
    {
      var g;
      asked := queue == [] || size[queue[|queue| - 1]] >= MAX_GROUP_SIZE;
      if asked {
        if !handleOk {
          return None, asked;
        }
        g, next := next, next + 1;
        queue, size, open := queue + [g], size[g := 0], open + [g];
      } else {
        g := queue[|queue| - 1];
      }
      assert open != [] && g == open[|open| - 1];
      size := size[g := size[g] + 1];
      if size[g] == MAX_GROUP_SIZE {
        queue := LastToFront(queue);
        full, open := [g] + full, open[..|open| - 1];
      }
      return Some(g), asked;
    }

    method Release(g: Group)
      requires Valid() && g in size && size[g] > 0
      modifies this
      ensures Now() == Released(old(Now()), g) && queue == full + open
    {
      WithoutConcat(full, open, g);
      size := size[g := size[g] - 1];
      queue := Without(queue, g) + [g];
      if g in full {
        WithoutAbsent(open, g);
        full, open := Without(full, g), open + [g];
      } else {
        WithoutAbsent(full, g);
        open := Without(open, g) + [g];
      }
    }

    /** poll_group_delete, of the first group in the queue. */
    method DeleteFirst()
      requires Valid() && queue != [] && queue[0] !in queue[1..]
      requires size[queue[0]] == 0
      modifies this
      ensures Valid() && queue == old(queue)[1..] && size == old(size) - {old(queue)[0]}
    {
      var g := queue[0];
      assert g in queue;
      FirstFrom(full, open);
      assert open == queue;
      queue, size, open := queue[1..], size - {g}, open[1..];
    }
  }
}
