# A verified model of the mnet event core

mnet is a small network library: channels with timers and send caches on top of
epoll or kqueue, an emulation of epoll for Windows, and a DNS query extension.
This project models its three hardest parts in Dafny and proves what they
promise. The kernel, the clock and the random source are arbitrary inputs.

**The epoll emulation (`src/wepoll.c`).**

- `TreeShape`, `TreeRepair`, `RedBlackTree`: the intrusive red-black tree with
  parent pointers. Nodes are heap objects; a ghost shape with a path to the
  place of work ("zipper") says what every link write means. The linking that
  the source does inside its descent is done here by `Descend` and `LinkAt`;
  the removal of a node with two children makes the source's writes grouped as
  "take out the successor, let it take over".
- `HandleProtocol`: the handle tree behind its lock and the reflock, as a step
  machine over any number of threads, ports and handles. Each step is one
  atomic action of one thread, or a wake-up.
- `IntrusiveQueue`, `QueueSpec`: the linked queues and the sequences they stand
  for. `PollGroups`: the slot allocator. `SocketSpec`, `SocketRuns`,
  `SocketPort`: the per-socket poll machine, first as functions on values with
  the invariant, then over all runs, then as a class with the loops. Outstanding
  kernel polls are a ghost map; they complete in any order with any status.
  Memory for sock_states is a map from addresses, so that freeing removes a key
  and touching freed memory cannot be expressed.

**The event core (`src/mnet_core.c`).**

- `MnetData`, `SkipLevels`, `SkipLists`: the skip list, linked level by level.
  `TimerSpec`, `Timers`: the timers kept in it, as values (which are due, what
  re-arming does) and as a class, with the drain through a saved cursor.
- `SendBuffer`, `StreamSpec`, `StreamChannel`: the send cache as a chain of
  blocks; what the system takes and what is cached, as a function of its answers;
  then sending, flushing and the epoll interest mask.
- `ChannelTable`: the channel list, the list of closed channels, destruction at
  the next poll, and shutdown.
- `ChannelSpec`, `MnetSpec`: one channel, and then the whole event core, as an
  abstract machine on values, with what holds over all its runs. `ChannelViews`
  shows that each call does one step of that machine, `ChannelRuns` that every
  run of a program does: opening and accepting, connecting, sending, flushing,
  setting timers, closing, polling and fetching timer messages one at a time, in
  any order, as long as every call comes back and the timer cursor is not lost.

`Basics` has the bytes and the optional values used throughout.

**DNS (`extension/mdns/mdns.c`).** `DnsNames`, `DnsQuery`, `DnsAnswer`,
`DnsQuestion`: the QNAME field (section 3.1 of RFC 1035), the query message, the
header and question tests and the walk over the answer records (sections 4.1.3
and 4.1.4).

## Results that may surprise

Each of these is a place where the code does not do what one would expect. The
exact condition is proved for all inputs, and a run or an input shows it.

- `_rwb_destroy` ends exactly when the cache is empty; with bytes cached no
  number of turns of its loop changes anything (`SendBuffer.SendCache.Destroy`).
  So a disconnect, close or shutdown gets through exactly when nothing is cached
  (`StreamChannel.Disconnect`, `ChannelTable.Mnet.Close`,
  `ChannelTable.Mnet.Finish`; a run in `StreamChannel.DisconnectHangs`), and a
  flush never comes back exactly when the system refuses a block after taking
  whole all those before it (`StreamChannel.OnWritable`, `StreamSpec.StuckIff`;
  a run in `StreamChannel.FlushHangs`).
- A caller that switched send events on is not told on the next connection of
  the same channel: after a successful connect the write interest is there
  exactly when the switch was off (`StreamChannel.OnConnected`; a run in
  `StreamChannel.SwitchForgotten`); every other operation keeps it.
- A channel that the program closes on the timer message of another, both timers
  being due, still gets its own timer message (`MnetSpec.MessageAbout`: a message
  is about a closed channel exactly if the program closed it since the last poll;
  a run in `ChannelRuns.TellsClosed`). It is never about a destroyed one.
- Changing a timer in the middle of a drain loses the drain's cursor exactly if
  it is the timer that the cursor points at (`Timers.Clock.SetTimer`; whenever
  two timers are due, in `Timers.Clock.ChangeSecond`).
- The question test passes a response about another name whenever the labels of
  that name begin with those of the name asked for, the last byte of the last one
  apart; anything may follow (`DnsQuestion.QuestionTells`, for all names;
  `WrongNamePasses` has a name of the same length, `LongerNamePasses` a longer
  one).
- A response that the header or question test turns down may have overwritten the
  caller's address before: exactly if the walk finds one (`DnsAnswer.Parse`; an
  input in `DnsQuestion.RejectedButWritten`).
- The answer walk takes a class-IN PTR record for an address if one comes first
  (`DnsAnswer.FirstHit`; an answer section in `DnsQuestion.PointerTaken`).
- A registration still under way when its port is closed breaks the assertion of
  `port_get_iocp_handle` exactly when every slot of every poll group is taken
  (`SocketPort.Port.CtlAdd`; a run in `SocketPort.AddAfterClose`).

## Model

| member | source | states |
|---|---|---|
| RedBlackTree.Tree.Add | src/wepoll.c:2042-2075 | a new key is added to the map of contents and 0 returned; a key already there gives -1 and changes no node; the tree stays a red-black search tree with consistent parent links and a black root |
| RedBlackTree.Tree.Delete | src/wepoll.c:2102-2173 | the contents lose exactly the node's key; every other node stays, and all tree invariants hold again |
| RedBlackTree.Tree.Find | src/wepoll.c:2175-2186 | agrees with the map for every key, and with n nodes visits v of them where 2^v is at most (n+1)^2 |
| RedBlackTree.Tree.RotateLeft | src/wepoll.c:1986-2009 | rewires the links so that the shape at the place of work is the rotated one and everything around it is untouched |
| RedBlackTree.Tree.RotateRight | src/wepoll.c:1986-2013 | the mirror image of the left rotation |
| RedBlackTree.Tree.RepairAfterAdd | src/wepoll.c:2059-2073 | from a tree balanced but for one red node under a possibly red parent, ends balanced with a black root and the same items in order |
| RedBlackTree.Tree.RepairAfterRemove | src/wepoll.c:2146-2172 | from a tree with one subtree a black level short, ends balanced with the same items in order |
| RedBlackTree.Run | src/wepoll.c:2042-2173 | after any sequence of additions and removals the invariants hold and the keys are those of a finite set updated the same way |
| TreeRepair.RotatedLeftNodes | src/wepoll.c:1986-2009 | a rotation keeps the nodes and their distinctness |
| TreeRepair.LiftRed | src/wepoll.c:2023-2030 | recolouring under a red uncle keeps balance and moves the conflict two levels up |
| TreeRepair.TurnBlack | src/wepoll.c:2035-2040 | the final rotation after an insertion keeps the items in order and leaves the red node, nearer to the root, without a conflict |
| TreeRepair.LowerShort | src/wepoll.c:2079-2085 | a red sibling is rotated away, the same subtree staying one level short |
| TreeRepair.RaiseShort | src/wepoll.c:2086-2100 | recolouring a black sibling moves the missing level to the parent |
| TreeRepair.SupplyShort | src/wepoll.c:2086-2098 | a rotation with a red nephew supplies the missing level |
| TreeShape.Shallow | src/wepoll.c:2175-2186 | in a balanced tree the number of levels is at most twice the logarithm of the size plus one |
| HandleProtocol.StepKeeps | src/wepoll.c:1547-1592 | every step of every thread keeps the lock discipline, the links between handles, ports and threads, and the meaning of each reflock word |
| HandleProtocol.RunKeeps | src/wepoll.c:1911-1976 | the invariant holds in every state of every run |
| HandleProtocol.NeverFails | src/wepoll.c:1561-1592 | no assertion of the reflock ever fails, and no thread points at a port that has been freed |
| HandleProtocol.DestroyedForGood | src/wepoll.c:598-617 | once reflock_unref_and_destroy has returned to the closer, in every later state no other thread has a reference or can get one, and exactly one signal was sent if the closer waited, none otherwise |
| HandleProtocol.CloserIsAwaited | src/wepoll.c:1579-1592 | a closer that waits is waited for by some thread that holds a reference or is about to signal |
| HandleProtocol.Alone | src/wepoll.c:1579-1592 | when the closer goes on, no other thread points at its port |
| HandleProtocol.PublishLinks | src/wepoll.c:562-582 | a handle newly given out is never in the tree already, so adding it cannot fail |
| HandleProtocol.TakeRefKeeps | src/wepoll.c:1561-1567 | taking a reference under the lock keeps the invariant and overflows nothing |
| HandleProtocol.DropRefKeeps | src/wepoll.c:1569-1577 | dropping a reference keeps the invariant; the last one out after the destroy flag signals |
| HandleProtocol.DestroyKeeps | src/wepoll.c:1579-1586 | setting the destroy flag while dropping the closer's reference keeps the invariant |
| HandleProtocol.WakeKeeps | src/wepoll.c:1547-1559 | a signal wakes the one closer that waits for it |
| IntrusiveQueue.IsEnqueued | src/wepoll.c:1523-1525 | a node is in a queue exactly when its ring has another node |
| IntrusiveQueue.Queue.Append | src/wepoll.c:1497-1502 | the queue's sequence grows at the end |
| IntrusiveQueue.Queue.Prepend | src/wepoll.c:1490-1495 | the queue's sequence grows at the front |
| IntrusiveQueue.Queue.Remove | src/wepoll.c:1514-1517 | the node leaves the sequence, and is a ring of its own |
| IntrusiveQueue.Queue.MoveToEnd | src/wepoll.c:1509-1512 | the node moves to the end, the others keep their order |
| IntrusiveQueue.Queue.MoveToStart | src/wepoll.c:1504-1507 | the node moves to the front, the others keep their order |
| IntrusiveQueue.Queue.First | src/wepoll.c:1482-1484 | the first node, or null exactly when the queue is empty |
| IntrusiveQueue.Queue.Last | src/wepoll.c:1486-1488 | the last node, or null exactly when the queue is empty |
| IntrusiveQueue.NeverInTwo | src/wepoll.c:1419-1449 | one node is never in two queues |
| IntrusiveQueue.ItemsUnique | src/wepoll.c:1468-1517 | the links of a queue determine its sequence |
| PollGroups.PollGroupQueue.Acquire | src/wepoll.c:1001-1019 | takes a slot as the value-level operation does, from the last group or a new one |
| PollGroups.PollGroupQueue.Release | src/wepoll.c:1021-1031 | gives a slot back as the value-level operation does; the group moves to the end |
| PollGroups.PollGroupQueue.DeleteFirst | src/wepoll.c:986-991 | frees the first group, which is empty |
| PollGroups.AcquireKeeps | src/wepoll.c:1001-1019 | full groups stay a prefix, no group has more than 32 slots, the total grows by one, and the number of groups stays the least for the peak |
| PollGroups.ReleaseKeeps | src/wepoll.c:1021-1031 | the same for giving back; the group ends with less than 32 slots, as the source asserts |
| PollGroups.AcquireFails | src/wepoll.c:1007-1013 | acquiring fails exactly when every group is full and no helper handle can be had |
| PollGroups.GroupsForIsCeiling | src/wepoll.c:957-958 | the least number of groups for a peak is the peak divided by 32, rounded up |
| SocketSpec.DeleteKeeps | src/wepoll.c:1682-1709 | deleting a socket keeps the invariant for it and for all others |
| SocketSpec.SetEventKeeps | src/wepoll.c:1719-1734 | new user events leave the socket queued unless its poll covers them |
| SocketSpec.UpdateKeeps | src/wepoll.c:1778-1838 | an update takes the socket off the queue, keeps the invariant, and always meets the source's assertion |
| SocketSpec.FeedKeeps | src/wepoll.c:1840-1893 | a completion finds a live socket, and whatever its status the invariant holds again |
| SocketSpec.OnePollEach | src/wepoll.c:1802-1831 | a poll is submitted only for a socket with none outstanding |
| SocketSpec.ReleasedOnce | src/wepoll.c:1682-1709 | a deleted socket is freed at once exactly if no poll is outstanding, and otherwise by its completion |
| SocketSpec.CoverReachesKernel | src/wepoll.c:1736-1755 | a poll that covers the known user events has the kernel watch for all AFD events they stand for |
| SocketSpec.AskedIsWatched | src/wepoll.c:1736-1776 | every known event asked for, EPOLLMSG apart, is told by some condition the kernel then watches for |
| SocketSpec.WatchedIsTold | src/wepoll.c:1736-1776 | every condition watched for, a local close apart, tells something that was asked for |
| SocketSpec.EventReachesUser | src/wepoll.c:1862-1892 | a completion without a local close, with at least one condition watched for, whatever others, is reported as one event: all it stands for that was asked for, with the user's data |
| SocketSpec.OneShotOnce | src/wepoll.c:1882-1887 | a one-shot socket that has reported is watched for a local close only and reports nothing more |
| SocketSpec.UpdateAllKeeps | src/wepoll.c:1175-1191 | the update loop ends with the invariant, and with an empty queue if it succeeds |
| SocketSpec.NothingLost | src/wepoll.c:1175-1191 | with the queue empty, every registered socket has a poll outstanding that covers its events, or a cancelled one under way |
| SocketSpec.DeleteSlots | src/wepoll.c:1700-1704 | each live socket holds exactly one slot of its group, also after a deletion |
| SocketSpec.NewSockSlots | src/wepoll.c:1641-1680 | the same for a registration, which gives its slot back if it is refused |
| SocketRuns.NoLostInterest | src/wepoll.c:1175-1191 | after every run of ctl calls, waits, completions and the updates at the end of waits, each registered socket is queued, or has a cancelled poll outstanding, or a poll that covers what its user asked for |
| SocketRuns.PollsAndQueues | src/wepoll.c:1397-1449 | after every run a poll is outstanding exactly for the live sockets that are not idle; queued sockets are registered, deleted ones are unregistered and have a poll outstanding, and no socket is in both queues |
| SocketRuns.GroupsFollowPeak | src/wepoll.c:962-1031 | after every run the slots held are the live sockets, and the number of groups is the ceiling of the peak over 32 |
| SocketRuns.ReleasedByCompletion | src/wepoll.c:1849-1852 | over any run, a deleted socket stays allocated, unchanged and polled until its own completion |
| SocketRuns.StepReleases | src/wepoll.c:1849-1852 | the step with its completion frees it, and no other step does |
| SocketRuns.RunKeeps | src/wepoll.c:1175-1395 | both halves of the invariant hold after every run |
| SocketPort.Port.UpdateEvents | src/wepoll.c:1175-1191 | the loop terminates and does what the value-level loop does, with its result code |
| SocketPort.Port.FeedEvents | src/wepoll.c:1198-1214 | the completions are fed one after the other and the events reported are those they tell |
| SocketPort.Port.CtlAdd | src/wepoll.c:1326-1341 | registers the socket with its events and returns 0, or returns -1 and leaves sockets, tree and queues as they were: for a bad or known socket, or when no slot can be had; on a closed port, too, with the exact condition under which the handle is asked for that is gone |
| SocketPort.AddAfterClose | src/wepoll.c:1451-1454 | the first registration of a port, overtaken by its closing, breaks the assertion that the handle is there |
| SocketPort.RoomAtEnd | src/wepoll.c:1001-1013 | a new group is needed exactly when the live sockets fill all slots of all groups |
| SocketPort.Port.Close | src/wepoll.c:1134-1142 | closing changes nothing but the handle; calls still under way find the invariant and, as their contracts say, keep it |
| SocketPort.Port.CtlMod | src/wepoll.c:1343-1356 | changes the events of a registered socket, -1 exactly for an unknown one |
| SocketPort.Port.CtlDel | src/wepoll.c:1358-1366 | deletes a registered socket, -1 exactly for an unknown one |
| SocketPort.Port.BeginWait | src/wepoll.c:1216-1227 | updates all queued sockets and counts the wait, or fails |
| SocketPort.Port.FinishWait | src/wepoll.c:1238-1246 | ends the wait and reports the events of its completions |
| SocketPort.Port.DeletePort | src/wepoll.c:1144-1173 | terminates; frees every socket and every group exactly once; each group is empty and the update queue ends empty, as asserted |
| SkipLists.SkipList.Insert | src/mnet_core.c:439-472 | for any height the node is put just before the first key not less, linked at all its levels; the level is the greatest height |
| SkipLists.SkipList.Remove | src/mnet_core.c:474-485 | the node is gone from all levels, the rest is in place, and the level is the greatest height left (0 if none) |
| SkipLists.FindEnd | src/mnet_core.c:452-460 | the search of one level stops at the right neighbours, wherever above it came from |
| SkipLists.LevelInserted | src/mnet_core.c:439-472 | at each level, too, the node stands just before the first key not less |
| SkipLists.LevelRemoved | src/mnet_core.c:474-485 | each level loses the node and nothing else |
| SkipLevels.LevelOfLevel | src/mnet_core.c:439-472 | each level is a sublist of the one below |
| SkipLevels.HeightIsMax | src/mnet_core.c:441-444 | the height is reached by a node and exceeded by none |
| Timers.Clock.Activate | src/mnet_core.c:507-516 | a channel without a timer gets one with its deadline; nodes and channels correspond one to one |
| Timers.Clock.Update | src/mnet_core.c:518-527 | the channel's node is replaced by one with the new deadline |
| Timers.Clock.Kill | src/mnet_core.c:529-539 | the channel's timer is gone, if it had one |
| Timers.Clock.Schedule | src/mnet_core.c:541-558 | the cursor stands at the first timer due by now, or nowhere if none is |
| Timers.Clock.Fire | src/mnet_core.c:568-575 | the cursor moves on to the next due timer, and the one handled is re-armed by its own interval past the snapshot time |
| Timers.Clock.Next | src/mnet_core.c:560-586 | terminates; handles due timers in order up to the first whose event gets past the filter; every channel handled, its event passed or dropped, ends with a deadline past the snapshot time, its interval after the reading of its turn, and every other timer stays as it was; nothing is returned only when none is left |
| Timers.Clock.SetTimer | src/mnet_core.c:1648-1658 | in the middle of a drain: the channel gets the new deadline or loses its timer, a due timer changed is due no more, and the cursor stays good exactly if the node it points at is not the one taken out |
| Timers.Clock.ChangeSecond | src/mnet_core.c:560-586 | whenever two timers are due, changing the second on the message of the first loses the cursor |
| Timers.Clock.Drain | src/mnet_core.c:541-586 | a whole drain with the caller's changes in between: the channels handled are the owners of the timers due at its start, each once, in order; the messages are those whose event passes, in order; a channel handled and left alone by the caller is re-armed by its interval, one not due and left alone keeps its deadline, none loses its timer but by the caller; afterwards none is due |
| TimerSpec.TrackedNext | src/mnet_core.c:541-586 | what a round does, added to what the rounds before it did to each channel's deadline |
| TimerSpec.SoFarNext | src/mnet_core.c:541-586 | the same for the messages and the channels handled |
| TimerSpec.DueOrdered | src/mnet_core.c:541-586 | the due timers come in deadline order without repetition and are all those whose deadline has come |
| TimerSpec.DueInsert | src/mnet_core.c:518-527 | a timer set for later adds nothing to those due |
| TimerSpec.DueWithout | src/mnet_core.c:529-539 | a timer taken out leaves the other due ones in their order |
| SendBuffer.SendCache.Cache | src/mnet_core.c:315-319 | the unsent stream grows by the bytes given |
| SendBuffer.SendCache.Drain | src/mnet_core.c:328-337 | terminates, and takes that many bytes off the front of the stream |
| SendBuffer.SendCache.Destroy | src/mnet_core.c:339-344 | for every number of turns: the loop is over exactly if the cache was empty, and nothing changes |
| SendBuffer.SendCache.DestroyHead | src/mnet_core.c:302-313 | only a fully drained first block is freed |
| SendBuffer.SendCache.Cached | src/mnet_core.c:1751-1761 | positive exactly when something is cached |
| SendBuffer.DrainedFlat | src/mnet_core.c:328-337 | draining blocks is dropping bytes from the front of the stream |
| StreamChannel.Send | src/mnet_core.c:1686-1722 | returns the length given whenever it does not return -1, with the exact condition for -1; with nothing cached the system takes the bytes its answer says and the rest is cached, otherwise all is cached |
| StreamChannel.Flushes | src/mnet_core.c:851-875 | terminates; what is taken, what is left and how it ends are the function of the blocks and the answers that StuckIff, AllSentIff and FlushConserves are about |
| StreamSpec.StuckIff | src/mnet_core.c:851-875 | a flush gets stuck exactly if some block is refused after all those before it were taken whole |
| StreamSpec.AllSentIff | src/mnet_core.c:851-875 | all is sent exactly if every block is taken whole, and exactly then nothing is left |
| StreamSpec.FlushConserves | src/mnet_core.c:851-875 | what a flush took followed by what it left is what was cached |
| StreamChannel.FlushStep | src/mnet_core.c:858-862 | the system takes as many bytes of the first block as it answers, and they leave the cache; the loop goes on exactly if that was the whole block and there is another |
| StreamChannel.OnWritable | src/mnet_core.c:1281-1291 | flushes; write interest stays while something is cached or send events are on; the call never comes back exactly if a block is refused after all those before it were taken whole; the caller is told exactly if all is sent and it asked |
| StreamChannel.SetSendEvent | src/mnet_core.c:1632-1647 | write interest follows the switch and the cache |
| StreamChannel.OnConnected | src/mnet_core.c:1256-1266 | a new connection has no write interest, so a send-event switch left on is not honoured |
| StreamChannel.Connect | src/mnet_core.c:1563-1577 | a connection attempt asks for write events |
| StreamChannel.Disconnect | src/mnet_core.c:797-814 | gets through exactly when nothing is cached, and then leaves no interest behind |
| StreamChannel.SwitchForgotten | src/mnet_core.c:1256-1266 | accept, switch send events on, disconnect, connect again: the caller is not told any more |
| StreamChannel.DisconnectHangs | src/mnet_core.c:797-814 | accept, have one of two bytes taken, disconnect: that never gets through |
| StreamChannel.FlushHangs | src/mnet_core.c:851-875 | the same with a flush that is refused |
| StreamChannel.EvtAdd | src/mnet_core.c:1055-1096 | the mask gains the flags of the set asked for |
| StreamChannel.EvtDel | src/mnet_core.c:1098-1139 | the mask loses the one flag asked for |
| StreamChannel.Traffic | src/mnet_core.c:1686-1722 | over any interleaving of sends, write events and switches, with partial writes and refusals: what the system has taken is what its answers say, that followed by what is cached is all bytes handed over, bytes_send counts the former, there is write interest while there is anything cached, and the connection is open, down or hung as the answers say |
| StreamSpec.RunConserves | src/mnet_core.c:1686-1722 | the conservation behind it, over any run of a connection |
| ChannelTable.Mnet.Create | src/mnet_core.c:718-731 | the new channel is at the front of a well-formed doubly linked list of chann_count channels |
| ChannelTable.Mnet.Accept | src/mnet_core.c:768-787 | so is the channel of an accepted connection, with read interest and nothing cached |
| ChannelTable.Mnet.Destroy | src/mnet_core.c:733-745 | a closed channel leaves the list and takes its timer along; its cache is empty, so that the loop over it ends |
| ChannelTable.Mnet.CloseSocket | src/mnet_core.c:816-827 | the channel joins the delete list once; that list holds exactly the closed channels |
| ChannelTable.Mnet.Close | src/mnet_core.c:1529-1536 | the channel is closed exactly if nothing is cached on it, as the loop over its cache decides; otherwise the call never comes back and the channel is as it was; no other channel changes |
| ChannelTable.Mnet.DestroyDoomed | src/mnet_core.c:1141-1150 | exactly the closed channels are destroyed, each once |
| ChannelTable.Mnet.Poll | src/mnet_core.c:1152-1161 | when timers are scheduled none belongs to a closed channel |
| ChannelTable.Mnet.Finish | src/mnet_core.c:1340-1363 | all channels and timers are gone, each channel ever created destroyed once, exactly if no channel has bytes cached |
| ChannelTable.Mnet.Perform | src/mnet_core.c:1686-1722 | connecting, sending, flushing, switching and disconnecting one channel: what becomes of that channel, exactly when the call never comes back, no other channel changed, lists and clock in order |
| StreamChannel.Perform | src/mnet_core.c:1686-1722 | the same for the channel alone |
| ChannelSpec.LinkConserves | src/mnet_core.c:851-875 | whatever is done to a channel, the bytes taken and cached are those handed over before and by this call |
| ChannelTable.Mnet.SetTimer | src/mnet_core.c:1648-1658 | the channel gets the deadline or loses its timer and is due no more, all other timers and channels stay, and the cursor is lost exactly if it points at that timer and the channel is open |
| ChannelTable.Mnet.NextTimer | src/mnet_core.c:560-586 | the channels due are handled in order up to the first whose event gets past the filter, each re-armed; no other timer or channel changes; the cursor then stands at the next one due |
| ChannelViews.PollTimers | src/mnet_core.c:1152-1192 | a poll and its timer messages with nothing in between: exactly the closed channels go, the channels handled are those due at the poll, by deadline, all open, each re-armed, and the messages are those whose event passes |
| ChannelViews.Poll | src/mnet_core.c:1152-1161 | the closed channels leave list, links and timers, the others stay as they are and in order, and the due timers are scheduled by deadline |
| ChannelRuns.Step | src/mnet_core.c:1340-1821 | every call does to the channels, their streams and timers exactly what the abstract machine does, with the same reply: whether it came back, what it made, whom it told |
| ChannelRuns.Run | src/mnet_core.c:1340-1821 | every run of a program goes through the views of a run of the abstract machine with the same calls and replies; it makes all its calls unless one of them never comes back or loses the timer cursor |
| MnetSpec.StopsIff | src/mnet_core.c:797-875 | a call never comes back exactly if it tears down or closes a channel with bytes cached or flushes into a refusal, and loses the cursor exactly if it sets the timer of the open channel the cursor points at |
| MnetSpec.RunFits | src/mnet_core.c:718-745 | after every run the list has each channel once, timers belong to channels of the list, each is due at most once, and a destroyed channel is nowhere |
| MnetSpec.EveryByteKept | src/mnet_core.c:1686-1722 | after every run, for every channel, the bytes the system has taken followed by those cached are those of all sends on it that did not fail, whatever happened on the other channels |
| MnetSpec.ClosedAre | src/mnet_core.c:1141-1161 | after every run the closed channels not destroyed yet are exactly those closed since the last poll |
| MnetSpec.MessageAbout | src/mnet_core.c:560-586 | a timer message is about a channel not destroyed, whose timer was due; the channel is closed exactly if it was closed since the last poll |
| MnetSpec.EachOnce | src/mnet_core.c:541-586 | between two polls, whatever the program does: the timers handled followed by those still due are those due at the poll, in order, without those the program has set or dropped since |
| ChannelRuns.TellsClosed | src/mnet_core.c:560-586 | a run in which a channel closed on the message of another still gets its own |
| DnsQuery.ConstructField | extension/mdns/mdns.c:83-108 | writes in bounds; succeeds exactly for two or more labels of 1 to 63 bytes, and then has written the field that encodes them; otherwise the bytes left behind are those of FilledIs |
| DnsQuery.FilledIs | extension/mdns/mdns.c:83-108 | for any text and any bytes that were there: the labels up to the first of forbidden length, each behind its length, then that one behind an old byte, then old bytes |
| DnsQuery.Build | extension/mdns/mdns.c:226-271 | succeeds exactly for such names of at most 254 bytes (255 wraps the length to zero), with size length + 18 and every byte of the buffer as it should be |
| DnsQuery.MessageReadsBack | extension/mdns/mdns.c:226-271 | reading the message back by length bytes gives id, name and question |
| DnsNames.FieldStandsFor | extension/mdns/mdns.c:83-108 | the field is one byte longer than the name and reads back as it |
| DnsNames.ReadEncode | extension/mdns/mdns.c:83-108 | reading a field by its length bytes gives the labels it was made from |
| DnsNames.JoinSplit | extension/mdns/mdns.c:83-108 | joining the labels with dots gives the name |
| DnsAnswer.CheckHeader | extension/mdns/mdns.c:110-137 | accepts exactly responses to one standard query, without error and with answers; codes below -10 are exactly the server's errors 1 to 5 |
| DnsAnswer.QuestionIff | extension/mdns/mdns.c:139-160 | if all labels of the name may be written, the question passes exactly when it agrees with the field in all bytes but the last, whatever the buffer held |
| DnsAnswer.QuestionInGeneral | extension/mdns/mdns.c:139-160 | for any name: it is compared with the bytes FilledIs gives, up to the length of the name or a zero in both |
| DnsQuestion.QuestionTells | extension/mdns/mdns.c:146-151 | a response about one name passes for another exactly when its labels begin with those of the other, the last byte of the last one apart |
| DnsQuestion.AgreesIff | extension/mdns/mdns.c:146-151 | comparing a field with the start of a name in a message, its own last byte apart, is comparing labels |
| DnsQuestion.WrongNamePasses | extension/mdns/mdns.c:146-151 | a response about a.c passes for a.b |
| DnsQuestion.LongerNamePasses | extension/mdns/mdns.c:146-151 | so does one about a.x.c |
| DnsQuestion.PointerTaken | extension/mdns/mdns.c:176-217 | a class-IN PTR record before an address has its first four bytes taken for one |
| DnsQuestion.AnswerPasses | extension/mdns/mdns.c:110-160 | a response flagged as one, without error, with answers and the question repeated passes both tests, whatever its other flags and sections |
| DnsQuestion.AnswerReachesCaller | extension/mdns/mdns.c:226-307 | from the query built to the address returned: such a response with the wire form of its records brings the first address, if no PTR record of class IN precedes it |
| DnsAnswer.Fetch | extension/mdns/mdns.c:163-221 | the loop gives the outcome of the walk; the output changes only when an address is found |
| DnsAnswer.FirstHit | extension/mdns/mdns.c:176-217 | the walk skips exactly the records before the first class-IN A or PTR record and takes that one's first four bytes |
| DnsAnswer.FirstAddress | extension/mdns/mdns.c:176-217 | with no such PTR record before it, the first class-IN A record's four bytes are returned |
| DnsAnswer.NoHit | extension/mdns/mdns.c:176-221 | without such a record the walk ends in an error |
| DnsAnswer.Parse | extension/mdns/mdns.c:282-307 | for any name: 0 exactly for bad arguments; otherwise the first failure of header, question and walk in that order, or success; the output is the address the walk finds, if any, also when another test fails, and else unchanged |
| DnsQuestion.RejectedButWritten | extension/mdns/mdns.c:293-306 | a response about another name is turned down and its address has been written |
| DnsQuestion.ReplyAnswers | extension/mdns/mdns.c:110-160 | the reply a server sends to a query, with any records, is one of the responses spoken of |
| DnsQuestion.AskAndGet | extension/mdns/mdns.c:226-307 | building a query and parsing such a reply gives the first address, if no class-IN PTR record comes before it |

## Left out

- Real system calls, NT and AFD internals, `getaddrinfo` and socket options: their results are parameters or ghost state.
- Allocation failure and logging.
- The error-code table of the epoll emulation, a finite table; the event-bit mappings appear only inside the socket machine.
- `epoll_wait`'s timeout arithmetic and its buffer for completions.
- The kqueue branches of the event functions; only the epoll branch is modelled.
- `mnet_multi_reset_event` and datagram channels in the listening state, which do not keep the write-interest relation.
- The list of channels disconnected while sending, receiving, and `bytes_recv`.
- Failing `epoll_ctl` calls of the event core.
- 32-bit overflow of byte totals, counters and timer intervals (the stored interval of a timer is an `int`).
- The random choice of skip-list levels: every height from 1 to 32 is allowed.
- `extension/openssl/mnet_tls.c`, the Lua bindings, examples and tests.
- DnsQuery.ConstructField: names longer than 255 bytes are not modelled; the source's local buffer has 256 bytes.
- DnsAnswer.Parse: the same; the bytes of the unfilled local buffer are a parameter.
- DnsAnswer.Fetch: bytes past the end of the buffer count as zero; the source would read whatever is there.
- ChannelRuns.Run: the messages of sockets come as the operations they lead to (connected, writable, disconnected), in any order; that timer messages come first in each poll is not required.
- Timers.Clock.Drain: the caller changes the timer of the channel it was told of, or starts timers on channels without one; what other changes do to the cursor is stated by SetTimer.
- ChannelTable.Mnet: listening channels, which pass their sockets on and send nothing, are not opened there.
- SocketPort.Port: the two socket queues and the queue of poll groups are sequences there; that linked queues implement these sequences is proved separately in IntrusiveQueue, and likewise the socket tree is a map, which RedBlackTree implements.
