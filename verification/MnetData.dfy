/** The records of the event core: skip-list nodes, timers and channels. */
module MnetData {
  import opened Basics
  import opened SendBuffer

  const MAX_LEVEL := 32

  /** A node has one pair of links for each of its levels; the list's own heads make one with all. */
  class SkipNode {
    const key: int
    const level: nat
    const value: Timer?
    var prev: seq<SkipNode?>
    var next: seq<SkipNode?>

    constructor (level: nat, key: int, value: Timer?)
      ensures this.level == level && this.key == key && this.value == value
      ensures |prev| == level && |next| == level
    {
      this.level, this.key, this.value := level, key, value;
      prev, next := seq(level, _ => null), seq(level, _ => null);
    }
  }

  class Timer {
    var interval: int
    var time: int
    const chann: Channel

    constructor (chann: Channel, interval: int, time: int)
      ensures this.chann == chann && this.interval == interval && this.time == time
    {
      this.chann, this.interval, this.time := chann, interval, time;
    }
  }

  datatype ChannelState = Closed | Disconnected | Connecting | Connected | Listening

  /** The epoll flags a channel can ask for. */
  datatype Flag = EpollIn | EpollOut | EpollRdhup | EpollHup

  class Channel {
    var fd: int
    var state: ChannelState
    var timerNode: SkipNode?
    const cache: SendCache          // rwb_send
    var prev: Channel?
    var next: Channel?
    var delNext: Channel?
    var bytesSend: int
    var activeSendEvent: bool
    var mask: set<Flag>             // epoll_events
    ghost var accepted: seq<Byte>   // what the system has taken

    constructor (state: ChannelState)
      ensures this.state == state && fd == 0 && timerNode == null
      ensures fresh(cache) && cache.Valid() && cache.count == 0 && cache.blocks == [] && cache.owned == {}
      ensures prev == null && next == null && delNext == null && mask == {} && !activeSendEvent
      ensures bytesSend == 0 && accepted == []
    {
      this.state, fd, timerNode, prev, next, delNext := state, 0, null, null, null, null;
      bytesSend, activeSendEvent, mask, accepted := 0, false, {}, [];
      cache := new SendCache();
    }
  }
}
