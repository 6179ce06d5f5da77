/**
 The protocol that lets any number of threads use epoll ports while others
 create and close them: a lock-protected tree from handles to ports, and in each
 port a "reflock", one 32-bit word holding a reference count and a destroy flag.

 A state describes all threads at once. A thread is somewhere inside one API
 call, and every step moves one thread (or a signaller and the thread it wakes)
 by one atomic action.
 */
module HandleProtocol {

  type Handle = nat
  type Port = nat
  type Tid = nat

  const REF := 1
  const REF_LIMIT := 0x1000_0000
  const DESTROY := 0x1000_0000
  const POISON := 0x300d_ead0
  const WORD := 0x1_0000_0000

  /** Places inside the API calls. `In` and `Out` bracket what happens under the tree's lock. */
  datatype Place =
    | Idle
    // epoll_create
    | Creating      // has a new port; waits for the exclusive lock
    | CreateIn      // exclusive lock held, about to add
    | CreateOut     // exclusive lock held, added
    // epoll_ctl and epoll_wait
    | UseStart      // waits for the shared lock
    | UseIn         // shared lock held, about to search
    | UseFound      // shared lock held, about to take a reference
    | UseOut        // shared lock and reference held
    | UseMiss       // shared lock held, nothing found
    | Using         // reference held
    | Signal        // gave up the last reference, wakes the closer
    // epoll_close
    | CloseStart    // waits for the exclusive lock
    | CloseIn       // exclusive lock held, about to search
    | CloseFound    // exclusive lock held, about to delete from the tree
    | CloseDel      // exclusive lock held, about to take a reference
    | CloseOut      // exclusive lock and reference held
    | CloseMiss     // exclusive lock held, nothing found
    | Closing       // reference held, about to close the kernel handle
    | Closed        // reference held, about to drop it and destroy
    | Await         // waits to be signalled
    | Woken         // about to poison the word
    | Gone          // reflock_unref_and_destroy has returned; about to free

  /** A thread's place, the port it points to and the handle it was given. */
  datatype Pc = Pc(at: Place, p: Port, h: Handle)

  predicate Exclusive(a: Place) {
    a.CreateIn? || a.CreateOut? || a.CloseIn? || a.CloseFound? || a.CloseDel? || a.CloseOut? || a.CloseMiss?
  }

  predicate Shared(a: Place) {
    a.UseIn? || a.UseFound? || a.UseOut? || a.UseMiss?
  }

  predicate RefAt(a: Place) {
    a.UseOut? || a.Using? || a.CloseOut? || a.Closing? || a.Closed?
  }

  predicate HandleAt(a: Place) {
    a.Creating? || a.CreateIn? || a.CloseDel? || a.CloseOut? || a.Closing?
  }

  predicate OwnerAt(a: Place) {
    HandleAt(a) || a.Closed? || a.Await? || a.Woken? || a.Gone?
  }

  predicate HoldsRef(pc: Pc, p: Port) {
    pc.p == p && RefAt(pc.at)
  }

  predicate Signals(pc: Pc, p: Port) {
    pc.p == p && pc.at.Signal?
  }

  /** The thread has the port to itself: before it is published, or since it was withdrawn. */
  predicate Owns(pc: Pc, p: Port) {
    pc.p == p && OwnerAt(pc.at)
  }

  /** The thread has a pointer to the port and may still follow it. */
  predicate Mentions(pc: Pc, p: Port) {
    pc.p == p && (RefAt(pc.at) || OwnerAt(pc.at) || pc.at.UseFound? || pc.at.Signal? || pc.at.CloseFound?)
  }

  datatype State = State(
    tree: map<Handle, Port>,     // the locked tree
    open: map<Handle, Port>,     // kernel handles and the ports they belong to
    word: map<Port, nat>,        // reflock words; the keys are the allocated ports
    pcs: map<Tid, Pc>,
    failed: bool,                // an assertion failed, a key was taken, or freed memory was touched
    // history that the program does not keep
    used: set<Port>,             // ports ever allocated
    owner: map<Port, Tid>,       // the thread that has the port to itself
    waited: set<Port>,           // ports whose closer had to wait
    signals: multiset<Port>)     // signals sent

  datatype Step =
    | StartCreate(t: Tid, p: Port, h: Handle)
    | StartUse(t: Tid, h: Handle)
    | StartClose(t: Tid, h: Handle)
    | Enter(t: Tid)              // acquires the lock, shared or exclusive
    | Leave(t: Tid)              // releases the lock
    | Find(t: Tid)               // tree_find
    | Publish(t: Tid)            // tree_add
    | Withdraw(t: Tid)           // tree_del
    | TakeRef(t: Tid)            // reflock_ref
    | DropRef(t: Tid)            // reflock_unref
    | CloseHandle(t: Tid)        // port_close
    | Destroy(t: Tid)            // reflock_unref_and_destroy, up to its wait
    | Wake(t: Tid, u: Tid)       // a keyed event: `t` signals, `u` waits
    | Poison(t: Tid)             // reflock_unref_and_destroy, after its wait
    | Free(t: Tid)               // port_delete

  ghost predicate Enabled(s: State, step: Step) {
    && step.t in s.pcs
    && var a := s.pcs[step.t].at;
       match step
       case StartCreate(t, p, h) => a.Idle? && p !in s.used && h !in s.open
       case StartUse(t, h) => a.Idle?
       case StartClose(t, h) => a.Idle?
       case Enter(t) =>
         && (a.Creating? || a.CloseStart? || a.UseStart?)
         && (forall u :: u in s.pcs ==> !Exclusive(s.pcs[u].at))
         && (a.UseStart? || forall u :: u in s.pcs ==> !Shared(s.pcs[u].at))
       case Leave(t) => a.CreateOut? || a.UseOut? || a.UseMiss? || a.CloseOut? || a.CloseMiss?
       case Find(t) => a.UseIn? || a.CloseIn?
       case Publish(t) => a.CreateIn?
       case Withdraw(t) => a.CloseFound?
       case TakeRef(t) => a.UseFound? || a.CloseDel?
       case DropRef(t) => a.Using?
       case CloseHandle(t) => a.Closing?
       case Destroy(t) => a.Closed?
       case Wake(t, u) => a.Signal? && u in s.pcs && s.pcs[u].at.Await? && s.pcs[u].p == s.pcs[t].p
       case Poison(t) => a.Woken?
       case Free(t) => a.Gone?
  }

  /** The four high bits of a word; `reflock_ref` asserts that they are clear. */
  function HighBits(w: nat): nat {
    w / REF_LIMIT
  }

  function Moved(s: State, t: Tid, pc: Pc): State {
    s.(pcs := s.pcs[t := pc])
  }

  function To(s: State, t: Tid, a: Place): State
    requires t in s.pcs
  {
    Moved(s, t, s.pcs[t].(at := a))
  }

  function NextInLock(a: Place): Place {
    match a
    case Creating => CreateIn
    case UseStart => UseIn
    case CloseStart => CloseIn
    case UseOut => Using
    case CloseOut => Closing
    case _ => Idle
  }

  /** A step of thread `t` that concerns port `p` and no other. */
  ghost predicate Local(s: State, s': State, t: Tid, p: Port) {
    && t in s'.pcs && s'.pcs == s.pcs[t := s'.pcs[t]] && s'.pcs[t].p == p && s.used <= s'.used
    && forall q :: q != p ==> Untouched(s, s', q)
  }

  ghost predicate Untouched(s: State, s': State, q: Port) {
    && (q in s'.word <==> q in s.word) && (q in s.word ==> s'.word[q] == s.word[q])
    && (q in s'.owner <==> q in s.owner) && (q in s.owner ==> s'.owner[q] == s.owner[q])
    && s'.signals[q] == s.signals[q] && (q in s'.waited <==> q in s.waited)
  }

  function DoFind(s: State, t: Tid): State
    requires t in s.pcs
  {
    var h, use := s.pcs[t].h, s.pcs[t].at.UseIn?;
    if h in s.tree then Moved(s, t, Pc(if use then UseFound else CloseFound, s.tree[h], h))
    else To(s, t, if use then UseMiss else CloseMiss)
  }

  /** tree_add fails if the key is taken. */
  function DoPublish(s: State, t: Tid): (s': State)
    requires t in s.pcs
    ensures Local(s, s', t, s.pcs[t].p)
  {
    var p, h := s.pcs[t].p, s.pcs[t].h;
    To(s, t, CreateOut).(tree := s.tree[h := p], owner := s.owner - {p}, failed := s.failed || h in s.tree)
  }

  function DoWithdraw(s: State, t: Tid): (s': State)
    requires t in s.pcs
    ensures Local(s, s', t, s.pcs[t].p)
  {
    var p, h := s.pcs[t].p, s.pcs[t].h;
    To(s, t, CloseDel).(tree := s.tree - {h}, owner := s.owner[p := t])
  }

  /** The word of a port, or the fact that its memory is gone. */
  function Word(s: State, p: Port): nat {
    if p in s.word then s.word[p] else POISON
  }

  function SetWord(s: State, p: Port, w: nat, ok: bool): State {
    s.(word := s.word[p := w], failed := s.failed || p !in s.word || !ok)
  }

  /** InterlockedAdd(+REF) with its assertion. */
  function DoTakeRef(s: State, t: Tid): (s': State)
    requires t in s.pcs
    ensures Local(s, s', t, s.pcs[t].p)
  {
    var p := s.pcs[t].p;
    var w := (Word(s, p) + REF) % WORD;
    SetWord(To(s, t, if s.pcs[t].at.UseFound? then UseOut else CloseOut), p, w, HighBits(w) == 0)
  }

  /** InterlockedAdd(-REF) with its assertion, then a signal if the result is DESTROY. */
  function DoDropRef(s: State, t: Tid): (s': State)
    requires t in s.pcs
    ensures Local(s, s', t, s.pcs[t].p)
  {
    var p := s.pcs[t].p;
    var w := (Word(s, p) + WORD - REF) % WORD;
    var s' := SetWord(To(s, t, if w == DESTROY then Signal else Idle), p, w, HighBits(w) < 2);
    if w == DESTROY then s'.(signals := s'.signals + multiset{p}) else s'
  }

  /** InterlockedAdd(DESTROY - REF) with its assertion, up to the decision whether to wait. */
  function DoDestroy(s: State, t: Tid): (s': State)
    requires t in s.pcs
    ensures Local(s, s', t, s.pcs[t].p)
  {
    var p := s.pcs[t].p;
    var w := (Word(s, p) + DESTROY - REF) % WORD;
    var wait := w % REF_LIMIT != 0;
    var s' := SetWord(To(s, t, if wait then Await else Woken), p, w, HighBits(w) == 1);
    if wait then s'.(waited := s'.waited + {p}) else s'
  }

  /** InterlockedExchange with its assertion. */
  function DoPoison(s: State, t: Tid): (s': State)
    requires t in s.pcs
    ensures Local(s, s', t, s.pcs[t].p)
  {
    var p := s.pcs[t].p;
    SetWord(To(s, t, Gone), p, POISON, Word(s, p) == DESTROY)
  }

  function DoFree(s: State, t: Tid): (s': State)
    requires t in s.pcs
    ensures Local(s, s', t, s.pcs[t].p)
  {
    var p := s.pcs[t].p;
    To(s, t, Idle).(word := s.word - {p}, owner := s.owner - {p})
  }

  function DoCloseHandle(s: State, t: Tid): (s': State)
    requires t in s.pcs
    ensures Local(s, s', t, s.pcs[t].p)
  {
    To(s, t, Closed).(open := s.open - {s.pcs[t].h})
  }

  function DoCreate(s: State, t: Tid, p: Port, h: Handle): (s': State)
    ensures Local(s, s', t, p)
  {
    Moved(s, t, Pc(Creating, p, h)).(
      open := s.open[h := p], word := s.word[p := 0], used := s.used + {p}, owner := s.owner[p := t])
  }

  ghost function Do(s: State, step: Step): State
    requires Enabled(s, step)
  {
    match step
    case StartCreate(t, p, h) => DoCreate(s, t, p, h)
    case StartUse(t, h) => Moved(s, t, Pc(UseStart, 0, h))
    case StartClose(t, h) => Moved(s, t, Pc(CloseStart, 0, h))
    case Enter(t) => To(s, t, NextInLock(s.pcs[t].at))
    case Leave(t) => To(s, t, NextInLock(s.pcs[t].at))
    case Find(t) => DoFind(s, t)
    case Publish(t) => DoPublish(s, t)
    case Withdraw(t) => DoWithdraw(s, t)
    case TakeRef(t) => DoTakeRef(s, t)
    case DropRef(t) => DoDropRef(s, t)
    case CloseHandle(t) => DoCloseHandle(s, t)
    case Destroy(t) => DoDestroy(s, t)
    case Wake(t, u) => To(To(s, u, Woken), t, Idle)
    case Poison(t) => DoPoison(s, t)
    case Free(t) => DoFree(s, t)
  }

  /** No port yet; fewer threads than the reference count can count. */
  ghost predicate Init(s: State) {
    && s.tree == map[] && s.open == map[] && s.word == map[] && !s.failed
    && s.used == {} && s.owner == map[] && s.waited == {} && s.signals == multiset{}
    && |s.pcs| < REF_LIMIT
    && forall t :: t in s.pcs ==> s.pcs[t].at == Idle
  }

  // ----- the invariant

  /** The exclusive lock shuts everyone else out. */
  ghost predicate LockOk(pcs: map<Tid, Pc>) {
    forall t, u :: t in pcs && u in pcs && t != u && Exclusive(pcs[t].at) ==>
                     !Exclusive(pcs[u].at) && !Shared(pcs[u].at)
  }

  /** What a thread's place says about the port it points to. */
  ghost predicate ThreadOk(s: State, t: Tid)
    requires t in s.pcs
  {
    var Pc(a, p, h) := s.pcs[t];
    && (HandleAt(a) ==> h in s.open && s.open[h] == p)
    && (a.UseFound? ==> p !in s.owner)
    && (a.CloseFound? ==> h in s.tree && s.tree[h] == p && p !in s.owner)
    && (Mentions(s.pcs[t], p) ==> p in s.word)
    && (OwnerAt(a) ==> p in s.owner && s.owner[p] == t)
  }

  ghost predicate OwnerOk(s: State, p: Port)
    requires p in s.owner
  {
    p in s.word && s.owner[p] in s.pcs && Owns(s.pcs[s.owner[p]], p)
  }

  /** The tree holds exactly the open handles whose ports no thread has to itself. */
  ghost predicate HandleOk(s: State, h: Handle)
    requires h in s.open
  {
    var p := s.open[h];
    && p in s.word
    && (p !in s.owner ==> h in s.tree && s.tree[h] == p)
    && (p in s.owner ==> h !in s.tree && s.owner[p] in s.pcs
                         && HandleAt(s.pcs[s.owner[p]].at) && s.pcs[s.owner[p]].h == h)
  }

  /** Who points where. */
  ghost predicate Links(s: State) {
    && s.word.Keys <= s.used && s.tree.Keys <= s.open.Keys
    && (forall t :: t in s.pcs ==> ThreadOk(s, t))
    && (forall p :: p in s.owner ==> OwnerOk(s, p))
    && (forall h :: h in s.open ==> HandleOk(s, h))
    && (forall g, h :: g in s.open && h in s.open && s.open[g] == s.open[h] ==> g == h)
  }

  ghost function Refs(pcs: map<Tid, Pc>, p: Port): set<Tid> {
    set t | t in pcs && HoldsRef(pcs[t], p)
  }

  ghost function Signallers(pcs: map<Tid, Pc>, p: Port): set<Tid> {
    set t | t in pcs && Signals(pcs[t], p)
  }

  /** The place of the thread that has the port to itself; `Idle` if there is none. */
  ghost function Stage(s: State, p: Port): Place {
    if p in s.owner && s.owner[p] in s.pcs then s.pcs[s.owner[p]].at else Idle
  }

  /** What the word and the signals of a port are, with `n` references and `k` signallers. */
  ghost predicate PortOk(stage: Place, w: nat, n: nat, k: nat, signals: nat, waited: bool) {
    match stage
    case Await => w == DESTROY + n && waited && signals == k && k == if n == 0 then 1 else 0
    case Woken => w == DESTROY && n == 0 && k == 0 && signals == if waited then 1 else 0
    case Gone => w == POISON && n == 0 && k == 0 && signals == if waited then 1 else 0
    case _ => w == n && k == 0 && signals == 0 && !waited
  }

  ghost predicate CountOk(s: State, p: Port)
    requires p in s.word
  {
    PortOk(Stage(s, p), s.word[p], |Refs(s.pcs, p)|, |Signallers(s.pcs, p)|, s.signals[p], p in s.waited)
  }

  /** What the words count. */
  ghost predicate Counts(s: State) {
    && !s.failed && |s.pcs| < REF_LIMIT
    && (forall p :: p in s.signals || p in s.waited ==> p in s.used)
    && (forall p :: p in s.word ==> CountOk(s, p))
  }

  ghost predicate Inv(s: State) {
    LockOk(s.pcs) && Links(s) && Counts(s)
  }

  // ----- every step keeps the lock

  lemma LockKept(pcs: map<Tid, Pc>, t: Tid, pc: Pc)
    requires LockOk(pcs) && t in pcs
    requires Exclusive(pc.at) && !Exclusive(pcs[t].at) ==>
               forall u :: u in pcs && u != t ==> !Exclusive(pcs[u].at) && !Shared(pcs[u].at)
    requires Shared(pc.at) && !Shared(pcs[t].at) ==> forall u :: u in pcs && u != t ==> !Exclusive(pcs[u].at)
    ensures LockOk(pcs[t := pc])
  {
  }

  // ----- every step keeps the links

  /** Steps that move a thread but leave ports, handles and ownership in place. */
  lemma MoveLinks(s: State, s': State, t: Tid)
    requires Links(s) && t in s.pcs && t in s'.pcs && s'.pcs == s.pcs[t := s'.pcs[t]]
    requires s'.tree == s.tree && s'.open == s.open && s'.owner == s.owner && s'.used == s.used
    requires s'.word.Keys == s.word.Keys
    requires OwnerAt(s'.pcs[t].at) <==> OwnerAt(s.pcs[t].at)
    requires OwnerAt(s.pcs[t].at) ==> s'.pcs[t].p == s.pcs[t].p && s'.pcs[t].h == s.pcs[t].h
    requires HandleAt(s'.pcs[t].at) <==> HandleAt(s.pcs[t].at)
    requires ThreadOk(s', t)
    ensures Links(s')
  {
    forall u | u in s'.pcs ensures ThreadOk(s', u) { assert u != t ==> ThreadOk(s, u); }
    forall p | p in s'.owner ensures OwnerOk(s', p) { assert OwnerOk(s, p); }
    forall h | h in s'.open ensures HandleOk(s', h) { assert HandleOk(s, h); }
  }

  lemma CreateLinks(s: State, t: Tid, p: Port, h: Handle)
    requires Links(s) && Enabled(s, StartCreate(t, p, h))
    ensures Links(DoCreate(s, t, p, h))
  {
    var s' := DoCreate(s, t, p, h);
    forall u | u in s'.pcs ensures ThreadOk(s', u) { assert ThreadOk(s, u); }
    forall q | q in s'.owner ensures OwnerOk(s', q) { assert q != p ==> OwnerOk(s, q); }
    forall g | g in s'.open ensures HandleOk(s', g) { assert g != h ==> HandleOk(s, g); }
  }

  /** A new handle is never in the tree already. */
  lemma PublishLinks(s: State, t: Tid)
    requires Links(s) && Enabled(s, Publish(t))
    ensures s.pcs[t].h !in s.tree
    ensures Links(DoPublish(s, t))
  {
    var p, h, s' := s.pcs[t].p, s.pcs[t].h, DoPublish(s, t);
    assert ThreadOk(s, t) && HandleOk(s, h);
    forall u | u in s'.pcs ensures ThreadOk(s', u) { assert ThreadOk(s, u); }
    forall q | q in s'.owner ensures OwnerOk(s', q) { assert OwnerOk(s, q); }
    forall g | g in s'.open ensures HandleOk(s', g) { assert HandleOk(s, g); }
  }

  /** Taking a port out of the tree; the exclusive lock keeps everyone else away from it. */
  lemma WithdrawLinks(s: State, t: Tid)
    requires LockOk(s.pcs) && Links(s) && Enabled(s, Withdraw(t))
    ensures Links(DoWithdraw(s, t))
  {
    var p, h, s' := s.pcs[t].p, s.pcs[t].h, DoWithdraw(s, t);
    assert ThreadOk(s, t) && HandleOk(s, h);
    forall u | u in s'.pcs ensures ThreadOk(s', u) { assert ThreadOk(s, u); }
    forall q | q in s'.owner ensures OwnerOk(s', q) { assert q != p ==> OwnerOk(s, q); }
    forall g | g in s'.open ensures HandleOk(s', g) { assert HandleOk(s, g); }
  }

  lemma CloseHandleLinks(s: State, t: Tid)
    requires Links(s) && Enabled(s, CloseHandle(t))
    ensures Links(DoCloseHandle(s, t))
  {
    var p, h, s' := s.pcs[t].p, s.pcs[t].h, DoCloseHandle(s, t);
    assert ThreadOk(s, t) && HandleOk(s, h);
    forall u | u in s'.pcs ensures ThreadOk(s', u) { assert ThreadOk(s, u); }
    forall q | q in s'.owner ensures OwnerOk(s', q) { assert OwnerOk(s, q); }
    forall g | g in s'.open ensures HandleOk(s', g) { assert HandleOk(s, g); }
  }

  lemma FreeLinks(s: State, t: Tid)
    requires Links(s) && Enabled(s, Free(t))
    requires forall u :: u in s.pcs && u != t ==> !Mentions(s.pcs[u], s.pcs[t].p)
    ensures Links(DoFree(s, t))
  {
    var p, s' := s.pcs[t].p, DoFree(s, t);
    assert ThreadOk(s, t);
    forall u | u in s'.pcs ensures ThreadOk(s', u) { assert ThreadOk(s, u); }
    forall q | q in s'.owner ensures OwnerOk(s', q) { assert OwnerOk(s, q); }
    forall g | g in s'.open ensures HandleOk(s', g) { assert HandleOk(s, g); }
  }

  // ----- every step keeps the counts

  /** How the counts of a port change when one thread moves. */
  lemma CountsAfter(pcs: map<Tid, Pc>, t: Tid, pc: Pc, p: Port)
    requires t in pcs
    ensures |Refs(pcs[t := pc], p)| ==
            |Refs(pcs, p)| + (if HoldsRef(pc, p) then 1 else 0) - if HoldsRef(pcs[t], p) then 1 else 0
    ensures |Signallers(pcs[t := pc], p)| ==
            |Signallers(pcs, p)| + (if Signals(pc, p) then 1 else 0) - if Signals(pcs[t], p) then 1 else 0
    ensures HoldsRef(pcs[t], p) ==> |Refs(pcs, p)| > 0
    ensures Signals(pcs[t], p) ==> |Signallers(pcs, p)| > 0
  {
    RefsAfter(pcs, t, pc, p);
    SignallersAfter(pcs, t, pc, p);
  }

  lemma RefsAfter(pcs: map<Tid, Pc>, t: Tid, pc: Pc, p: Port)
    requires t in pcs
    ensures |Refs(pcs[t := pc], p)| ==
            |Refs(pcs, p)| + (if HoldsRef(pc, p) then 1 else 0) - if HoldsRef(pcs[t], p) then 1 else 0
    ensures HoldsRef(pcs[t], p) ==> |Refs(pcs, p)| > 0
  {
    var a := Refs(pcs, p) - {t};
    assert Refs(pcs, p) == if HoldsRef(pcs[t], p) then a + {t} else a;
    assert Refs(pcs[t := pc], p) == if HoldsRef(pc, p) then a + {t} else a;
  }

  lemma SignallersAfter(pcs: map<Tid, Pc>, t: Tid, pc: Pc, p: Port)
    requires t in pcs
    ensures |Signallers(pcs[t := pc], p)| ==
            |Signallers(pcs, p)| + (if Signals(pc, p) then 1 else 0) - if Signals(pcs[t], p) then 1 else 0
    ensures Signals(pcs[t], p) ==> |Signallers(pcs, p)| > 0
  {
    var a := Signallers(pcs, p) - {t};
    assert Signallers(pcs, p) == if Signals(pcs[t], p) then a + {t} else a;
    assert Signallers(pcs[t := pc], p) == if Signals(pc, p) then a + {t} else a;
  }

  lemma RefBound(pcs: map<Tid, Pc>, p: Port)
    ensures |Refs(pcs, p)| <= |pcs|
  {
    assert Refs(pcs, p) <= pcs.Keys;
    SubsetSize(Refs(pcs, p), pcs.Keys);
  }

  lemma {:induction false} SubsetSize(a: set<Tid>, b: set<Tid>)
    requires a <= b
    ensures |a| <= |b|
  {
    if a != {} {
      var x :| x in a;
      SubsetSize(a - {x}, b - {x});
    }
  }

  /** A port that a step of thread `t` does not concern. */
  ghost predicate SamePort(s: State, s': State, t: Tid, q: Port)
    requires t in s.pcs && t in s'.pcs
  {
    && (HoldsRef(s'.pcs[t], q) <==> HoldsRef(s.pcs[t], q)) && (Signals(s'.pcs[t], q) <==> Signals(s.pcs[t], q))
    && q in s.word && q in s'.word && s'.word[q] == s.word[q]
    && (Stage(s', q) == Stage(s, q) || (HandleAt(Stage(s, q)) && (HandleAt(Stage(s', q)) || Stage(s', q).Closed?)))
    && s'.signals[q] == s.signals[q] && (q in s'.waited <==> q in s.waited)
  }

  lemma OtherPort(s: State, s': State, t: Tid, q: Port)
    requires t in s.pcs && t in s'.pcs && s'.pcs == s.pcs[t := s'.pcs[t]]
    requires SamePort(s, s', t, q) && CountOk(s, q)
    ensures CountOk(s', q)
  {
    CountsAfter(s.pcs, t, s'.pcs[t], q);
  }

  /** Steps on the port that thread `t` points to: of that port the counts must be shown. */
  lemma FocusCounts(s: State, s': State, t: Tid, p: Port)
    requires Links(s) && Counts(s) && t in s.pcs && Local(s, s', t, p) && !s'.failed && p in s'.used
    requires s.pcs[t].p == p || !Mentions(s.pcs[t], s.pcs[t].p)
    requires p in s'.word ==> CountOk(s', p)
    ensures Counts(s')
  {
    forall q | q in s'.word && q != p ensures CountOk(s', q) {
      assert Untouched(s, s', q);
      assert q in s.owner ==> OwnerOk(s, q);
      assert CountOk(s, q);
      OtherPort(s, s', t, q);
    }
    forall q | q in s'.signals || q in s'.waited ensures q in s'.used {
      assert q != p ==> Untouched(s, s', q);
    }
  }

  /** Steps that leave references, words and ownership as they are. */
  lemma QuietCounts(s: State, t: Tid, pc: Pc)
    requires Links(s) && Counts(s) && t in s.pcs
    requires RefAt(pc.at) <==> RefAt(s.pcs[t].at)
    requires RefAt(pc.at) || OwnerAt(s.pcs[t].at) ==> pc.p == s.pcs[t].p
    requires !pc.at.Signal? && !s.pcs[t].at.Signal?
    requires OwnerAt(s.pcs[t].at) ==> HandleAt(s.pcs[t].at) && HandleAt(pc.at)
    ensures Counts(Moved(s, t, pc))
  {
    var s' := Moved(s, t, pc);
    forall q | q in s'.word ensures CountOk(s', q) {
      QuietCount(s, t, pc, q);
    }
  }

  lemma QuietCount(s: State, t: Tid, pc: Pc, q: Port)
    requires Links(s) && Counts(s) && t in s.pcs && q in s.word
    requires RefAt(pc.at) <==> RefAt(s.pcs[t].at)
    requires RefAt(pc.at) || OwnerAt(s.pcs[t].at) ==> pc.p == s.pcs[t].p
    requires !pc.at.Signal? && !s.pcs[t].at.Signal?
    requires OwnerAt(s.pcs[t].at) ==> HandleAt(s.pcs[t].at) && HandleAt(pc.at)
    ensures CountOk(Moved(s, t, pc), q)
  {
    assert q in s.owner ==> OwnerOk(s, q);
    assert CountOk(s, q);
    OtherPort(s, Moved(s, t, pc), t, q);
  }

  // Counting below the flag never touches the flag, and the other way round.

  lemma WordUp(stage: Place, w: nat, n: nat, k: nat, signals: nat, waited: bool)
    requires PortOk(stage, w, n, k, signals, waited) && n + 1 < REF_LIMIT
    requires !stage.Await? && !stage.Woken? && !stage.Gone?
    ensures var w' := (w + REF) % WORD; HighBits(w') == 0 && PortOk(stage, w', n + 1, k, signals, waited)
  {
  }

  lemma WordDown(stage: Place, w: nat, n: nat, k: nat, signals: nat, waited: bool)
    requires PortOk(stage, w, n, k, signals, waited) && 0 < n < REF_LIMIT
    ensures var w' := (w + WORD - REF) % WORD;
            var last := if w' == DESTROY then 1 else 0;
            HighBits(w') < 2 && PortOk(stage, w', n - 1, k + last, signals + last, waited)
  {
  }

  lemma WordDestroy(stage: Place, w: nat, n: nat, k: nat, signals: nat, waited: bool)
    requires PortOk(stage, w, n, k, signals, waited) && 0 < n < REF_LIMIT && stage.Closed?
    ensures var w' := (w + DESTROY - REF) % WORD;
            var wait := w' % REF_LIMIT != 0;
            HighBits(w') == 1 && PortOk(if wait then Await else Woken, w', n - 1, k, signals, wait)
  {
  }

  lemma CreateAt(s: State, t: Tid, p: Port, h: Handle)
    requires Links(s) && t in s.pcs && p !in s.used && p !in s.signals && p !in s.waited
    ensures CountOk(DoCreate(s, t, p, h), p)
  {
    NoMention(s, p);
    CountsAfter(s.pcs, t, Pc(Creating, p, h), p);
  }

  lemma CreateLocal(s: State, t: Tid, p: Port, h: Handle)
    requires Links(s) && Enabled(s, StartCreate(t, p, h))
    ensures Local(s, DoCreate(s, t, p, h), t, p)
  {
  }

  lemma CreateCounts(s: State, t: Tid, p: Port, h: Handle)
    requires Links(s) && Counts(s) && Enabled(s, StartCreate(t, p, h))
    ensures Counts(DoCreate(s, t, p, h))
  {
    var s' := DoCreate(s, t, p, h);
    CreateAt(s, t, p, h);
    CreateLocal(s, t, p, h);
    FocusCounts(s, s', t, p);
  }

  /** Nothing points to memory that is not allocated. */
  lemma NoMention(s: State, p: Port)
    requires Links(s) && p !in s.word
    ensures forall t :: t in s.pcs ==> !Mentions(s.pcs[t], p)
    ensures Refs(s.pcs, p) == {} && Signallers(s.pcs, p) == {} && p !in s.owner
  {
    forall t | t in s.pcs ensures !Mentions(s.pcs[t], p) {
      assert ThreadOk(s, t);
    }
    assert p in s.owner ==> OwnerOk(s, p);
  }

  lemma PublishCounts(s: State, t: Tid)
    requires Links(s) && Counts(s) && Enabled(s, Publish(t)) && s.pcs[t].h !in s.tree
    ensures Counts(DoPublish(s, t))
  {
    var p, s' := s.pcs[t].p, DoPublish(s, t);
    IsAt(s, t);
    assert CountOk(s', p) by { CountsAfter(s.pcs, t, s'.pcs[t], p); }
    FocusCounts(s, s', t, p);
  }

  lemma WithdrawCounts(s: State, t: Tid)
    requires Links(s) && Counts(s) && Enabled(s, Withdraw(t))
    ensures Counts(DoWithdraw(s, t))
  {
    var p, s' := s.pcs[t].p, DoWithdraw(s, t);
    assert ThreadOk(s, t) && CountOk(s, p);
    CountsAfter(s.pcs, t, s'.pcs[t], p);
    FocusCounts(s, s', t, p);
  }

  lemma CloseHandleCounts(s: State, t: Tid)
    requires Links(s) && Counts(s) && Enabled(s, CloseHandle(t))
    ensures Counts(DoCloseHandle(s, t))
  {
    var p, s' := s.pcs[t].p, DoCloseHandle(s, t);
    assert ThreadOk(s, t) && CountOk(s, p);
    CountsAfter(s.pcs, t, s'.pcs[t], p);
    FocusCounts(s, s', t, p);
  }

  /** What a step on a word may rely on. */
  ghost predicate At(s: State, t: Tid, p: Port) {
    && t in s.pcs && s.pcs[t].p == p && p in s.word && p in s.used && CountOk(s, p) && !s.failed
    && |Refs(s.pcs, p)| <= |s.pcs| < REF_LIMIT
    && (OwnerAt(s.pcs[t].at) <==> p in s.owner && s.owner[p] == t)
    && (s.pcs[t].at.UseFound? ==> p !in s.owner)
  }

  lemma IsAt(s: State, t: Tid)
    requires Links(s) && Counts(s) && t in s.pcs && Mentions(s.pcs[t], s.pcs[t].p)
    ensures At(s, t, s.pcs[t].p)
  {
    var p := s.pcs[t].p;
    assert ThreadOk(s, t);
    assert p in s.owner ==> OwnerOk(s, p);
    RefBound(s.pcs, p);
  }

  lemma TakeRefAt(s: State, t: Tid, p: Port)
    requires At(s, t, p) && (s.pcs[t].at.UseFound? || s.pcs[t].at.CloseDel?)
    ensures CountOk(DoTakeRef(s, t), p) && !DoTakeRef(s, t).failed
  {
    var s' := DoTakeRef(s, t);
    CountsAfter(s.pcs, t, s'.pcs[t], p);
    RefBound(s'.pcs, p);
    assert s'.pcs.Keys == s.pcs.Keys;
    WordUp(Stage(s, p), s.word[p], |Refs(s.pcs, p)|, |Signallers(s.pcs, p)|, s.signals[p], p in s.waited);
  }

  lemma TakeRefCounts(s: State, t: Tid)
    requires Links(s) && Counts(s) && Enabled(s, TakeRef(t))
    ensures Counts(DoTakeRef(s, t))
  {
    IsAt(s, t);
    TakeRefAt(s, t, s.pcs[t].p);
    FocusCounts(s, DoTakeRef(s, t), t, s.pcs[t].p);
  }

  lemma DropRefAt(s: State, t: Tid, p: Port)
    requires At(s, t, p) && s.pcs[t].at.Using?
    ensures CountOk(DoDropRef(s, t), p) && !DoDropRef(s, t).failed
  {
    var s' := DoDropRef(s, t);
    CountsAfter(s.pcs, t, s'.pcs[t], p);
    WordDown(Stage(s, p), s.word[p], |Refs(s.pcs, p)|, |Signallers(s.pcs, p)|, s.signals[p], p in s.waited);
  }

  lemma DropRefCounts(s: State, t: Tid)
    requires Links(s) && Counts(s) && Enabled(s, DropRef(t))
    ensures Counts(DoDropRef(s, t))
  {
    IsAt(s, t);
    DropRefAt(s, t, s.pcs[t].p);
    FocusCounts(s, DoDropRef(s, t), t, s.pcs[t].p);
  }

  lemma DestroyAt(s: State, t: Tid, p: Port)
    requires At(s, t, p) && s.pcs[t].at.Closed?
    ensures CountOk(DoDestroy(s, t), p) && !DoDestroy(s, t).failed
  {
    var s' := DoDestroy(s, t);
    CountsAfter(s.pcs, t, s'.pcs[t], p);
    WordDestroy(Stage(s, p), s.word[p], |Refs(s.pcs, p)|, |Signallers(s.pcs, p)|, s.signals[p], p in s.waited);
  }

  lemma DestroyCounts(s: State, t: Tid)
    requires Links(s) && Counts(s) && Enabled(s, Destroy(t))
    ensures Counts(DoDestroy(s, t))
  {
    IsAt(s, t);
    DestroyAt(s, t, s.pcs[t].p);
    FocusCounts(s, DoDestroy(s, t), t, s.pcs[t].p);
  }

  lemma PoisonCounts(s: State, t: Tid)
    requires Links(s) && Counts(s) && Enabled(s, Poison(t))
    ensures Counts(DoPoison(s, t))
  {
    var p, s' := s.pcs[t].p, DoPoison(s, t);
    assert ThreadOk(s, t) && CountOk(s, p);
    CountsAfter(s.pcs, t, s'.pcs[t], p);
    FocusCounts(s, s', t, p);
  }

  lemma FreeCounts(s: State, t: Tid)
    requires Links(s) && Counts(s) && Enabled(s, Free(t))
    ensures Counts(DoFree(s, t))
  {
    var p, s' := s.pcs[t].p, DoFree(s, t);
    assert ThreadOk(s, t);
    FocusCounts(s, s', t, p);
  }

  /** When reflock_unref_and_destroy is past its wait, only the closer points to the port. */
  lemma Alone(s: State, t: Tid)
    requires Links(s) && Counts(s) && t in s.pcs && (s.pcs[t].at.Woken? || s.pcs[t].at.Gone?)
    ensures forall u :: u in s.pcs && u != t ==> !Mentions(s.pcs[u], s.pcs[t].p)
  {
    var p := s.pcs[t].p;
    assert ThreadOk(s, t) && CountOk(s, p);
    forall u | u in s.pcs && u != t ensures !Mentions(s.pcs[u], p) {
      assert ThreadOk(s, u);
      assert u !in Refs(s.pcs, p) && u !in Signallers(s.pcs, p);
    }
  }

  // ----- every step keeps the invariant

  /** Starting a call, the lock steps and the search. */
  lemma QuietKeeps(s: State, t: Tid, pc: Pc)
    requires Inv(s) && t in s.pcs
    requires Exclusive(pc.at) && !Exclusive(s.pcs[t].at) ==>
               forall u :: u in s.pcs && u != t ==> !Exclusive(s.pcs[u].at) && !Shared(s.pcs[u].at)
    requires Shared(pc.at) && !Shared(s.pcs[t].at) ==> forall u :: u in s.pcs && u != t ==> !Exclusive(s.pcs[u].at)
    requires QuietMove(s.pcs[t], pc) && ThreadOk(Moved(s, t, pc), t)
    ensures Inv(Moved(s, t, pc))
  {
    LockKept(s.pcs, t, pc);
    MoveLinks(s, Moved(s, t, pc), t);
    QuietCounts(s, t, pc);
  }

  predicate QuietMove(from: Pc, to: Pc) {
    var a, b := from.at, to.at;
    && (RefAt(b) <==> RefAt(a)) && (OwnerAt(b) <==> OwnerAt(a)) && (HandleAt(b) <==> HandleAt(a))
    && (OwnerAt(a) ==> HandleAt(a)) && !a.Signal? && !b.Signal?
    && (RefAt(a) || OwnerAt(a) ==> to.p == from.p && to.h == from.h)
  }

  lemma FindMove(s: State, t: Tid)
    requires Links(s) && Enabled(s, Find(t))
    ensures var s' := DoFind(s, t);
            && s' == Moved(s, t, s'.pcs[t]) && QuietMove(s.pcs[t], s'.pcs[t]) && ThreadOk(s', t)
            && (Exclusive(s'.pcs[t].at) <==> Exclusive(s.pcs[t].at))
            && (Shared(s'.pcs[t].at) <==> Shared(s.pcs[t].at))
  {
    var h := s.pcs[t].h;
    assert h in s.tree ==> HandleOk(s, h);
  }

  lemma FindKeeps(s: State, t: Tid)
    requires Inv(s) && Enabled(s, Find(t))
    ensures Inv(DoFind(s, t))
  {
    FindMove(s, t);
    QuietKeeps(s, t, DoFind(s, t).pcs[t]);
  }

  lemma LockMove(s: State, t: Tid)
    requires t in s.pcs && ThreadOk(s, t)
    requires !Plain(s.pcs[t].at)
    ensures var pc := s.pcs[t].(at := NextInLock(s.pcs[t].at));
            && QuietMove(s.pcs[t], pc) && ThreadOk(Moved(s, t, pc), t)
            && (Exclusive(pc.at) ==> s.pcs[t].at.Creating? || s.pcs[t].at.CloseStart?)
            && (Shared(pc.at) ==> s.pcs[t].at.UseStart?)
  {
  }

  /** Not a place from which the lock is entered or left. */
  predicate Plain(a: Place) {
    !(a.Creating? || a.UseStart? || a.CloseStart? || a.CreateOut? || a.UseOut? || a.UseMiss?
      || a.CloseOut? || a.CloseMiss?)
  }

  lemma LockStepKeeps(s: State, t: Tid)
    requires Inv(s) && (Enabled(s, Enter(t)) || Enabled(s, Leave(t)))
    ensures Inv(To(s, t, NextInLock(s.pcs[t].at)))
  {
    assert ThreadOk(s, t);
    LockMove(s, t);
    QuietKeeps(s, t, s.pcs[t].(at := NextInLock(s.pcs[t].at)));
  }

  /** Steps on the word of a port: the thread changes place, ports and handles stay. */
  ghost predicate WordStep(s: State, s': State, t: Tid)
    requires t in s.pcs
  {
    && t in s'.pcs && s'.pcs == s.pcs[t := s.pcs[t].(at := s'.pcs[t].at)]
    && s'.tree == s.tree && s'.open == s.open && s'.owner == s.owner
    && s'.word.Keys == s.word.Keys && s'.used == s.used
    && WordMove(s.pcs[t].at, s'.pcs[t].at)
  }

  /** The moves that go with an operation on a word. */
  predicate WordMove(a: Place, b: Place) {
    match a
    case UseFound => b.UseOut?
    case CloseDel => b.CloseOut?
    case Using => b.Idle? || b.Signal?
    case Closed => b.Await? || b.Woken?
    case Await => b.Woken?
    case Signal => b.Idle?
    case Woken => b.Gone?
    case _ => false
  }

  lemma WordLinks(s: State, s': State, t: Tid)
    requires LockOk(s.pcs) && Links(s) && t in s.pcs && WordStep(s, s', t)
    ensures LockOk(s'.pcs) && Links(s')
  {
    assert ThreadOk(s, t);
    LockKept(s.pcs, t, s'.pcs[t]);
    MoveLinks(s, s', t);
  }

  lemma DropRefStep(s: State, t: Tid)
    requires t in s.pcs && s.pcs[t].at.Using? && s.pcs[t].p in s.word
    ensures WordStep(s, DoDropRef(s, t), t)
  {
  }

  lemma DestroyStep(s: State, t: Tid)
    requires t in s.pcs && s.pcs[t].at.Closed? && s.pcs[t].p in s.word
    ensures WordStep(s, DoDestroy(s, t), t)
  {
  }

  lemma WakeAt(s: State, t: Tid, u: Tid, p: Port)
    requires At(s, t, p) && At(s, u, p) && s.pcs[t].at.Signal? && s.pcs[u].at.Await?
    ensures CountOk(To(To(s, u, Woken), t, Idle), p)
  {
    var s1 := To(s, u, Woken);
    CountsAfter(s.pcs, u, s1.pcs[u], p);
    CountsAfter(s1.pcs, t, s1.pcs[t].(at := Idle), p);
    CountsAfter(s.pcs, t, s.pcs[t], p);
  }

  /** The rendezvous: the signaller is the last one, so the closer may go on. */
  lemma WakeCounts(s: State, t: Tid, u: Tid)
    requires Links(s) && Counts(s) && Enabled(s, Wake(t, u))
    ensures Counts(To(To(s, u, Woken), t, Idle))
  {
    var p, s1 := s.pcs[t].p, To(s, u, Woken);
    var s2 := To(s1, t, Idle);
    IsAt(s, t);
    IsAt(s, u);
    WakeAt(s, t, u, p);
    forall q | q in s2.word && q != p ensures CountOk(s2, q) {
      assert q in s.owner ==> OwnerOk(s, q);
      assert CountOk(s, q);
      WakeElsewhere(s, t, u, q);
    }
  }

  lemma WakeElsewhere(s: State, t: Tid, u: Tid, q: Port)
    requires t in s.pcs && u in s.pcs && q in s.word && CountOk(s, q)
    requires s.pcs[t].p != q && s.pcs[u].p != q
    requires q in s.owner ==> s.owner[q] in s.pcs && Owns(s.pcs[s.owner[q]], q)
    ensures CountOk(To(To(s, u, Woken), t, Idle), q)
  {
    var s1 := To(s, u, Woken);
    OtherPort(s, s1, u, q);
    OtherPort(s1, To(s1, t, Idle), t, q);
  }

  lemma WakeLinks(s: State, t: Tid, u: Tid)
    requires LockOk(s.pcs) && Links(s) && Enabled(s, Wake(t, u))
    ensures var s' := To(To(s, u, Woken), t, Idle); LockOk(s'.pcs) && Links(s')
  {
    var s1 := To(s, u, Woken);
    WordLinks(s, s1, u);
    WordLinks(s1, To(s1, t, Idle), t);
  }

  lemma WakeKeeps(s: State, t: Tid, u: Tid)
    requires Inv(s) && Enabled(s, Wake(t, u))
    ensures Inv(Do(s, Wake(t, u)))
  {
    WakeLinks(s, t, u);
    WakeCounts(s, t, u);
  }

  lemma CreateKeeps(s: State, t: Tid, p: Port, h: Handle)
    requires Inv(s) && Enabled(s, StartCreate(t, p, h))
    ensures Inv(DoCreate(s, t, p, h))
  {
    LockKept(s.pcs, t, Pc(Creating, p, h));
    CreateLinks(s, t, p, h);
    CreateCounts(s, t, p, h);
  }

  lemma StartKeeps(s: State, t: Tid, a: Place, h: Handle)
    requires Inv(s) && t in s.pcs && s.pcs[t].at.Idle? && (a.UseStart? || a.CloseStart?)
    ensures Inv(Moved(s, t, Pc(a, 0, h)))
  {
    QuietKeeps(s, t, Pc(a, 0, h));
  }

  lemma PublishKeeps(s: State, t: Tid)
    requires Inv(s) && Enabled(s, Publish(t))
    ensures Inv(DoPublish(s, t))
  {
    LockKept(s.pcs, t, s.pcs[t].(at := CreateOut));
    PublishLinks(s, t);
    PublishCounts(s, t);
  }

  lemma WithdrawKeeps(s: State, t: Tid)
    requires Inv(s) && Enabled(s, Withdraw(t))
    ensures Inv(DoWithdraw(s, t))
  {
    LockKept(s.pcs, t, s.pcs[t].(at := CloseDel));
    WithdrawLinks(s, t);
    WithdrawCounts(s, t);
  }

  lemma TakeRefKeeps(s: State, t: Tid)
    requires Inv(s) && Enabled(s, TakeRef(t))
    ensures Inv(DoTakeRef(s, t))
  {
    IsAt(s, t);
    WordLinks(s, DoTakeRef(s, t), t);
    TakeRefCounts(s, t);
  }

  lemma DropRefKeeps(s: State, t: Tid)
    requires Inv(s) && Enabled(s, DropRef(t))
    ensures Inv(DoDropRef(s, t))
  {
    IsAt(s, t);
    DropRefStep(s, t);
    WordLinks(s, DoDropRef(s, t), t);
    DropRefCounts(s, t);
  }

  lemma CloseHandleKeeps(s: State, t: Tid)
    requires Inv(s) && Enabled(s, CloseHandle(t))
    ensures Inv(DoCloseHandle(s, t))
  {
    CloseHandleLock(s, t);
    CloseHandleLinks(s, t);
    CloseHandleCounts(s, t);
  }

  lemma CloseHandleLock(s: State, t: Tid)
    requires LockOk(s.pcs) && Enabled(s, CloseHandle(t))
    ensures LockOk(DoCloseHandle(s, t).pcs)
  {
    LockKept(s.pcs, t, s.pcs[t].(at := Closed));
  }

  lemma DestroyKeeps(s: State, t: Tid)
    requires Inv(s) && Enabled(s, Destroy(t))
    ensures Inv(DoDestroy(s, t))
  {
    IsAt(s, t);
    DestroyStep(s, t);
    WordLinks(s, DoDestroy(s, t), t);
    DestroyCounts(s, t);
  }

  lemma PoisonKeeps(s: State, t: Tid)
    requires Inv(s) && Enabled(s, Poison(t))
    ensures Inv(DoPoison(s, t))
  {
    IsAt(s, t);
    WordLinks(s, DoPoison(s, t), t);
    PoisonCounts(s, t);
  }

  lemma FreeKeeps(s: State, t: Tid)
    requires Inv(s) && Enabled(s, Free(t))
    ensures Inv(DoFree(s, t))
  {
    FreeCounts(s, t);
    assert Links(DoFree(s, t)) by {
      Alone(s, t);
      FreeLinks(s, t);
    }
    LockKept(s.pcs, t, s.pcs[t].(at := Idle));
  }

  lemma StepKeeps(s: State, step: Step)
    requires Inv(s) && Enabled(s, step)
    ensures Inv(Do(s, step))
  {
    match step
    case StartCreate(t, p, h) => CreateKeeps(s, t, p, h);
    case StartUse(t, h) => StartKeeps(s, t, UseStart, h);
    case StartClose(t, h) => StartKeeps(s, t, CloseStart, h);
    case Enter(t) => LockStepKeeps(s, t);
    case Leave(t) => LockStepKeeps(s, t);
    case Find(t) => FindKeeps(s, t);
    case Publish(t) => PublishKeeps(s, t);
    case Withdraw(t) => WithdrawKeeps(s, t);
    case TakeRef(t) => TakeRefKeeps(s, t);
    case DropRef(t) => DropRefKeeps(s, t);
    case CloseHandle(t) => CloseHandleKeeps(s, t);
    case Destroy(t) => DestroyKeeps(s, t);
    case Wake(t, u) => WakeKeeps(s, t, u);
    case Poison(t) => PoisonKeeps(s, t);
    case Free(t) => FreeKeeps(s, t);
  }

  // ----- whole runs

  ghost predicate IsRun(run: seq<State>, steps: seq<Step>) {
    && |run| == |steps| + 1 && Init(run[0])
    && forall i :: 0 <= i < |steps| ==> Next(run[i], steps[i], run[i + 1])
  }

  ghost predicate Next(s: State, step: Step, s': State) {
    Enabled(s, step) && s' == Do(s, step)
  }

  lemma NextKeeps(s: State, step: Step, s': State)
    requires Inv(s) && Next(s, step, s')
    ensures Inv(s')
  {
    StepKeeps(s, step);
  }

  lemma {:induction false} RunKeeps(run: seq<State>, steps: seq<Step>, i: nat)
    requires IsRun(run, steps) && i < |run|
    ensures Inv(run[i])
  {
    if i > 0 {
      RunKeeps(run, steps, i - 1);
      assert Next(run[i - 1], steps[i - 1], run[i]);
      NextKeeps(run[i - 1], steps[i - 1], run[i]);
    }
  }

  /** No assertion ever fails, a new handle is never taken, and freed ports are never touched. */
  lemma NeverFails(run: seq<State>, steps: seq<Step>, i: nat)
    requires IsRun(run, steps) && i < |run|
    ensures !run[i].failed
    ensures forall t, p :: t in run[i].pcs && Mentions(run[i].pcs[t], p) ==> p in run[i].word
  {
    RunKeeps(run, steps, i);
    forall t, p | t in run[i].pcs && Mentions(run[i].pcs[t], p) ensures p in run[i].word {
      assert ThreadOk(run[i], t);
    }
  }

  /** Nobody but the closer has a pointer to the port, and nobody can find it. */
  ghost predicate Retired(s: State, t: Tid, p: Port) {
    && p in s.used && (p in s.word ==> p in s.owner)
    && forall u :: u in s.pcs && Mentions(s.pcs[u], p) ==> u == t && s.pcs[u].at.Gone?
  }

  lemma RetiredElsewhere(s: State, s': State, u: Tid, q: Port, t: Tid, p: Port)
    requires Retired(s, t, p) && q != p && u in s.pcs && Local(s, s', u, q)
    ensures Retired(s', t, p)
  {
    assert Untouched(s, s', p);
  }

  lemma RetiredMove(s: State, u: Tid, pc: Pc, t: Tid, p: Port)
    requires Retired(s, t, p) && u in s.pcs && !Mentions(pc, p)
    ensures Retired(Moved(s, u, pc), t, p)
  {
  }

  lemma RetiredLockStep(s: State, u: Tid, t: Tid, p: Port)
    requires Retired(s, t, p) && u in s.pcs && !Plain(s.pcs[u].at)
    ensures Retired(To(s, u, NextInLock(s.pcs[u].at)), t, p)
  {
    RetiredMove(s, u, s.pcs[u].(at := NextInLock(s.pcs[u].at)), t, p);
  }

  lemma RetiredFind(s: State, u: Tid, t: Tid, p: Port)
    requires Links(s) && Retired(s, t, p) && Enabled(s, Find(u))
    ensures Retired(DoFind(s, u), t, p)
  {
    assert s.pcs[u].h in s.tree ==> HandleOk(s, s.pcs[u].h);
    RetiredMove(s, u, DoFind(s, u).pcs[u], t, p);
  }

  lemma RetiredWake(s: State, u: Tid, v: Tid, t: Tid, p: Port)
    requires Retired(s, t, p) && Enabled(s, Wake(u, v))
    ensures Retired(To(To(s, v, Woken), u, Idle), t, p)
  {
    assert Mentions(s.pcs[v], s.pcs[v].p);
    RetiredMove(s, v, s.pcs[v].(at := Woken), t, p);
    RetiredMove(To(s, v, Woken), u, s.pcs[u].(at := Idle), t, p);
  }

  /** A thread gets to know a port by creating it or by finding it in the tree, in no other way. */
  lemma RetiredStays(s: State, step: Step, t: Tid, p: Port)
    requires Links(s) && Enabled(s, step) && Retired(s, t, p)
    ensures Retired(Do(s, step), t, p)
  {
    var u, q := step.t, s.pcs[step.t].p;
    match step
    case StartCreate(_, r, h) => RetiredElsewhere(s, DoCreate(s, u, r, h), u, r, t, p);
    case StartUse(_, h) => RetiredMove(s, u, Pc(UseStart, 0, h), t, p);
    case StartClose(_, h) => RetiredMove(s, u, Pc(CloseStart, 0, h), t, p);
    case Enter(_) => RetiredLockStep(s, u, t, p);
    case Leave(_) => RetiredLockStep(s, u, t, p);
    case Find(_) => RetiredFind(s, u, t, p);
    case Wake(_, v) => RetiredWake(s, u, v, t, p);
    case Free(_) => if q != p { RetiredElsewhere(s, DoFree(s, u), u, q, t, p); }
    case _ =>
      assert Mentions(s.pcs[u], q);
      RetiredElsewhere(s, Do(s, step), u, q, t, p);
  }

  lemma DestroyedNow(s: State, t: Tid)
    requires Inv(s) && t in s.pcs && s.pcs[t].at.Gone?
    ensures Retired(s, t, s.pcs[t].p)
    ensures s.signals[s.pcs[t].p] == if s.pcs[t].p in s.waited then 1 else 0
  {
    IsAt(s, t);
    Alone(s, t);
  }

  lemma RetiredNext(run: seq<State>, steps: seq<Step>, i: nat, t: Tid, p: Port)
    requires IsRun(run, steps) && i < |steps| && Retired(run[i], t, p)
    ensures Retired(run[i + 1], t, p)
  {
    RunKeeps(run, steps, i);
    assert Next(run[i], steps[i], run[i + 1]);
    RetiredStays(run[i], steps[i], t, p);
  }

  lemma {:induction false} RetiredForGood(run: seq<State>, steps: seq<Step>, i: nat, j: nat, t: Tid, p: Port)
    requires IsRun(run, steps) && i <= j < |run| && Retired(run[i], t, p)
    ensures Retired(run[j], t, p)
    decreases j - i
  {
    if i < j {
      RetiredNext(run, steps, i, t, p);
      RetiredForGood(run, steps, i + 1, j, t, p);
    }
  }

  /**
   Once reflock_unref_and_destroy has returned to the closer, no other thread holds
   a reference, none ever obtains one, and exactly as many threads have signalled
   as the closer waited for: one if it had to wait, none otherwise.
   */
  lemma DestroyedForGood(run: seq<State>, steps: seq<Step>, i: nat, j: nat, t: Tid)
    requires IsRun(run, steps) && i <= j < |run|
    requires t in run[i].pcs && run[i].pcs[t].at.Gone?
    ensures Retired(run[j], t, run[i].pcs[t].p)
    ensures var p := run[i].pcs[t].p;
            run[i].signals[p] == if p in run[i].waited then 1 else 0
  {
    RunKeeps(run, steps, i);
    DestroyedNow(run[i], t);
    RetiredForGood(run, steps, i, j, t, run[i].pcs[t].p);
  }

  /** No lost wake-up: a waiting closer waits for a thread that can drop its reference or wake it. */
  lemma CloserIsAwaited(s: State, t: Tid) returns (u: Tid)
    requires Inv(s) && t in s.pcs && s.pcs[t].at.Await?
    ensures u in s.pcs && u != t && s.pcs[u].p == s.pcs[t].p
    ensures s.pcs[u].at.Using? || s.pcs[u].at.UseOut? || s.pcs[u].at.Signal?
  {
    IsAt(s, t);
    u := AwaitedAt(s, t, s.pcs[t].p);
    IsAt(s, u);
  }

  lemma AwaitedAt(s: State, t: Tid, p: Port) returns (u: Tid)
    requires At(s, t, p) && s.pcs[t].at.Await?
    ensures u in s.pcs && (HoldsRef(s.pcs[u], p) || Signals(s.pcs[u], p))
  {
    if |Refs(s.pcs, p)| == 0 {
      assert |Signallers(s.pcs, p)| == 1;
      u :| u in Signallers(s.pcs, p);
    } else {
      u :| u in Refs(s.pcs, p);
    }
  }
}
