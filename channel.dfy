/** The per-descriptor event handle and the part of its owning loop it
    talks to. */
module Reactor {
  import opened Epoll
  import opened Effects
  import opened Framing
  import opened Scatter
  import opened Timers

  /** The role a channel is created for. The listening role is `Create`'s
      final `else` branch. */
  datatype ChannelType = EventChannel | TimerChannel | ListenChannel

  /** A read or write event handler slot; `TimerfdRead` is the bound
      `DefaultTimerfdReadEventHandler`, `Custom` anything set from outside. */
  datatype Handler = Unset | TimerfdRead | Custom(id: nat)

  /** A connection-level callback slot (read, write or communicate). */
  datatype Callback = NoCallback | Callback(id: nat)

  /** What the descriptor-creating system calls of `Create` report: a
      descriptor, failure with `EAGAIN`, or failure with another error. */
  datatype OsReply = Fd(fd: nat) | Eagain | Errno

  /** What `Create` gives back: a new channel, a null pointer, or a thrown
      exception. */
  datatype Created = NewChannel(ch: Channel) | NoChannel | Threw

  /** Which handler one dispatch calls. */
  datatype Dispatch = ReadHandlerCalled(handler: Handler) | WriteHandlerCalled(handler: Handler) | NoneCalled

  /** How the listening handler's call ends. */
  datatype ListenOutcome = AtCapacity | NotAccepted | AcceptThrew | Admitted(conn: Channel)

  /** The mask `Create` arms a new channel with: read, peer hang-up and
      one-shot for every role, edge-triggered only for the timer channel,
      and never write. */
  function InitialEvents(kind: ChannelType): (m: bv32)
    ensures m & (EPOLLIN | EPOLLRDHUP | EPOLLONESHOT) == EPOLLIN | EPOLLRDHUP | EPOLLONESHOT
    ensures m & EPOLLOUT == 0
    ensures m & EPOLLET != 0 <==> kind == TimerChannel
    ensures m & !(EPOLLIN | EPOLLRDHUP | EPOLLONESHOT | EPOLLET) == 0
  {
    match kind
    case EventChannel => EPOLLIN | EPOLLRDHUP | EPOLLONESHOT
    case TimerChannel => EPOLLIN | EPOLLRDHUP | EPOLLONESHOT | EPOLLET
    case ListenChannel => EPOLLIN | EPOLLRDHUP | EPOLLONESHOT
  }

  /** The owning event loop, whose code is not part of this model: its live
      channel count and ceiling, the callbacks it hands to new connections,
      and the channels registered with its poller. */
  class EventLoop {
    var channelNum: int
    var maxChannelNum: int
    var readCallback: Callback
    var writeCallback: Callback
    var communicateCallback: Callback
    ghost var registered: seq<Channel>

    constructor (maxChannels: int, onRead: Callback, onWrite: Callback, onCommunicate: Callback)
      ensures channelNum == 0 && maxChannelNum == maxChannels
      ensures readCallback == onRead && writeCallback == onWrite && communicateCallback == onCommunicate
      ensures registered == []
    {
      channelNum := 0;
      maxChannelNum := maxChannels;
      readCallback, writeCallback, communicateCallback := onRead, onWrite, onCommunicate;
      registered := [];
    }

    /** `GetEpoll()->AddChannel(ch)`: registration with the poller. */
    method AddChannel(ch: Channel)
      modifies this`registered
      ensures registered == old(registered) + [ch]
    {
      registered := registered + [ch];
    }

    /** `AddChannelnum()`: one more live channel. */
    method AddChannelnum()
      modifies this`channelNum
      ensures channelNum == old(channelNum) + 1
    {
      channelNum := channelNum + 1;
    }
  }

  class Channel {
    var fd: int
    var listenfd: int
    var loop: EventLoop
    var events: bv32
    var revents: bv32
    var alive: bool
    var clearReadbuf: bool
    var readOrWrite: bv32
    var writeFlag: bool
    var readHandler: Handler
    var writeHandler: Handler
    var readCallback: Callback
    var writeCallback: Callback
    var communicateCallback: Callback
    /** Everything this channel has pushed, freed or run, in order. */
    ghost var trace: seq<Effect>

    /** A channel with nothing set; `Create` fills it in. */
    constructor (loop: EventLoop)
      ensures this.loop == loop && fd == -1 && listenfd == -1
      ensures events == 0 && revents == 0 && readOrWrite == 0
      ensures !alive && !clearReadbuf && !writeFlag
      ensures readHandler == Unset && writeHandler == Unset
      ensures readCallback == NoCallback && writeCallback == NoCallback && communicateCallback == NoCallback
      ensures trace == []
    {
      this.loop := loop;
      fd, listenfd := -1, -1;
      events, revents, readOrWrite := 0, 0, 0;
      alive, clearReadbuf, writeFlag := false, false, false;
      readHandler, writeHandler := Unset, Unset;
      readCallback, writeCallback, communicateCallback := NoCallback, NoCallback, NoCallback;
      trace := [];
    }

    method SetReadCallback(callback: Callback)
      modifies this`readCallback
      ensures readCallback == callback
    {
      readCallback := callback;
    }

    method SetWriteCallback(callback: Callback)
      modifies this`writeCallback
      ensures writeCallback == callback
    {
      writeCallback := callback;
    }

    method SetCommunicateCallback(callback: Callback)
      modifies this`communicateCallback
      ensures communicateCallback == callback
    {
      communicateCallback := callback;
    }

    /** `Update()`: push the current mask to the owning loop. */
    method Update()
      modifies this`trace
      ensures trace == old(trace) + [UpdateChannel(events)]
    {
      trace := trace + [UpdateChannel(events)];
    }

    method EnableRead()
      modifies this`events, this`trace
      ensures events == SetBit(old(events), EPOLLIN)
      ensures trace == old(trace) + [UpdateChannel(events)]
    {
      events := events | EPOLLIN;
      Update();
    }

    method EnableWrite()
      modifies this`events, this`trace
      ensures events == SetBit(old(events), EPOLLOUT)
      ensures trace == old(trace) + [UpdateChannel(events)]
    {
      events := events | EPOLLOUT;
      Update();
    }

    method DisableRead()
      modifies this`events, this`trace
      ensures events == ClearBit(old(events), EPOLLIN)
      ensures trace == old(trace) + [UpdateChannel(events)]
    {
      events := events & !EPOLLIN;
      Update();
    }

    method DisableWrite()
      modifies this`events, this`trace
      ensures events == ClearBit(old(events), EPOLLOUT)
      ensures trace == old(trace) + [UpdateChannel(events)]
    {
      events := events & !EPOLLOUT;
      Update();
    }

    /** Records the ready set; nothing is pushed. */
    method SetRevents(value: bv32)
      modifies this`revents
      ensures revents == value
    {
      revents := value;
    }

    /** Replaces the whole mask and pushes it once. */
    method SetEvents(value: bv32)
      modifies this`events, this`trace
      ensures events == value
      ensures trace == old(trace) + [UpdateChannel(value)]
    {
      events := value;
      Update();
    }

    /** Decodes a callback's returned block array (lines 114-148) and frees
        what it says to free. A null array changes nothing. */
    method ProcessIovec(io: IoBlocks)
      requires io.Blocks? ==> io.blockNum + 4 <= |io.control|
      modifies this`alive, this`clearReadbuf, this`readOrWrite, this`trace
      ensures io.Null? ==>
        alive == old(alive) && clearReadbuf == old(clearReadbuf) &&
        readOrWrite == old(readOrWrite) && trace == old(trace)
      ensures io.Blocks? ==>
        var n := io.blockNum;
        && (alive <==> io.control[n] == '1')
        && (clearReadbuf <==> io.control[n + 1] != '1')
        && readOrWrite == NextWatch(io.control[n + 2], io.control[n + 3])
        && trace == old(trace) + ReleasePlan(io.control, n)
    {
      if io.Null? {
        return;
      }
      var blockNum: int := io.blockNum;
      var control := io.control;
      if control[blockNum] == '1' {
        alive := true;
      } else {
        alive := false;
      }
      readOrWrite := 0;
      if control[blockNum + 1] == '1' {
        clearReadbuf := false;
      } else {
        clearReadbuf := true;
      }
      if control[blockNum + 2] == '1' {
        readOrWrite := readOrWrite | EPOLLIN;
      } else if control[blockNum + 3] == '1' {
        readOrWrite := readOrWrite | EPOLLOUT;
      }
      ReleaseBlocks(control, blockNum);
    }

    /** The release pass of lines 140-147: payload blocks are freed from the
        last one down to block 1 where their flag says so, then the control
        buffer and the array itself. */
    method ReleaseBlocks(control: seq<char>, blockNum: int)
      requires 0 <= blockNum && blockNum + 4 <= |control|
      modifies this`trace
      ensures trace == old(trace) + ReleasePlan(control, blockNum)
    {
      var i: int := blockNum - 1;
      while i > 0
        invariant 0 <= i < blockNum || (blockNum == 0 && i == -1)
        modifies this`trace
        invariant trace == old(trace) + Releases(control, i + 1, blockNum - 1)
      {
        if control[i] == '1' {
          trace := trace + [FreePayload(i)];
        }
        i := i - 1;
      }
      assert Releases(control, i + 1, blockNum - 1) == Releases(control, 1, blockNum - 1);
      trace := trace + [FreeControl];
      trace := trace + [FreeArray];
    }

    /** `DefaultEventHandler` (lines 342-346): calls the read handler if the
        ready set has EPOLLIN and one is set, otherwise the write handler if
        the ready set has EPOLLOUT and one is set, otherwise nothing. */
    method DefaultEventHandler() returns (call: Dispatch)
      ensures call.ReadHandlerCalled? <==> revents & EPOLLIN != 0 && readHandler != Unset
      ensures call.WriteHandlerCalled? <==>
        !(revents & EPOLLIN != 0 && readHandler != Unset) && revents & EPOLLOUT != 0 && writeHandler != Unset
      ensures call.ReadHandlerCalled? ==> call.handler == readHandler
      ensures call.WriteHandlerCalled? ==> call.handler == writeHandler
    {
      if revents & EPOLLIN != 0 && readHandler != Unset {
        call := ReadHandlerCalled(readHandler);
      } else if revents & EPOLLOUT != 0 && writeHandler != Unset {
        call := WriteHandlerCalled(writeHandler);
      } else {
        call := NoneCalled;
      }
    }

    /** `Send` (lines 276-312) as written: repeated `writev` of the first
        `len` blocks of `data`, rewriting them in place. Would-block re-arms
        for writing and returns true with `writeFlag` clear; another error
        returns false; otherwise it returns true with `writeFlag` set as
        soon as one write ends on the end of the cursor block. */
    method Send(data: array<IoVec>, len: int, writev: seq<IoVec> -> WriteReply) returns (ok: bool)
      requires 0 < len <= data.Length
      requires Admissible(writev)
      modifies data, this`events, this`trace, this`writeFlag
      ensures var o := SendRun(old(data[..len]), 0, writev);
        && data[..len] == o.blocks && data[len..] == old(data[len..])
        && ok == !o.end.Failed?
        && (o.end.Blocked? ==> !writeFlag && events == WriteRearm && trace == old(trace) + [UpdateChannel(WriteRearm)])
        && (o.end.Failed? ==> writeFlag == old(writeFlag) && events == old(events) && trace == old(trace))
        && (o.end.Finished? ==> writeFlag && events == old(events) && trace == old(trace))
      ensures IsSuffix(Unsent(SendRun(old(data[..len]), 0, writev)), Stream(old(data[..len])))
    {
      SendRunDelivers(data[..len], 0, writev);
      ghost var run := SendRun(data[..len], 0, writev);
      var sendId := 0;
      while true
        invariant 0 <= sendId < len
        invariant ZeroBelow(data[..len], sendId)
        invariant SendRun(data[..len], sendId, writev) == run
        invariant data[len..] == old(data[len..])
        invariant events == old(events) && trace == old(trace) && writeFlag == old(writeFlag)
        decreases |Stream(data[..len])|
      {
        var reply := writev(data[..len]);
        if !reply.Wrote? {
          if reply.WouldBlock? {
            SetEvents(WriteRearm);
            writeFlag := false;
            return true;
          }
          return false;
        }
        var sendNum: nat := reply.count;
        AdvanceProgress(data[..len], sendId, sendNum);
        var done;
        sendId, done := ApplyWrite(data, len, sendId, sendNum);
        if done {
          writeFlag := true;
          return true;
        }
      }
    }

    /** `Send` with line 303 corrected: a write ending on the end of the
        cursor block completes the send only when no later block holds a
        byte; otherwise the block is emptied and sending goes on with the
        next. Completion then means every byte was delivered, and, unless
        the first `writev` has nothing to send and fails, delivering every
        byte means completion. */
    method SendAll(data: array<IoVec>, len: int, writev: seq<IoVec> -> WriteReply) returns (ok: bool)
      requires 0 < len <= data.Length
      requires Admissible(writev)
      modifies data, this`events, this`trace, this`writeFlag
      ensures var o := SendRunFixed(old(data[..len]), 0, writev);
        && data[..len] == o.blocks && data[len..] == old(data[len..])
        && ok == !o.end.Failed?
        && (o.end.Blocked? ==> !writeFlag && events == WriteRearm && trace == old(trace) + [UpdateChannel(WriteRearm)])
        && (o.end.Failed? ==> writeFlag == old(writeFlag) && events == old(events) && trace == old(trace))
        && (o.end.Finished? ==> writeFlag && events == old(events) && trace == old(trace))
      ensures var o := SendRunFixed(old(data[..len]), 0, writev);
        IsSuffix(Unsent(o), Stream(old(data[..len]))) && (o.end.Finished? ==> Unsent(o) == [])
      ensures var o := SendRunFixed(old(data[..len]), 0, writev);
        (Stream(old(data[..len])) != [] || writev(old(data[..len])).Wrote?) ==>
          (o.end.Finished? <==> Unsent(o) == [])
    {
      SendRunFixedDelivers(data[..len], 0, writev);
      ghost var run := SendRunFixed(data[..len], 0, writev);
      var sendId := 0;
      var reply := writev(data[..len]);
      while reply.Wrote?
        modifies data
        invariant 0 <= sendId < len
        invariant ZeroBelow(data[..len], sendId)
        invariant SendRunFixed(data[..len], sendId, writev) == run
        invariant data[len..] == old(data[len..])
        invariant reply == writev(data[..len])
        decreases |Stream(data[..len])|
      {
        var sendNum: nat := reply.count;
        AdvanceFixedProgress(data[..len], sendId, sendNum);
        var finished;
        sendId, finished := ApplyWriteFixed(data, len, sendId, sendNum);
        if finished {
          break;
        }
        reply := writev(data[..len]);
      }
      if reply.Wrote? {
        writeFlag := true;
        return true;
      }
      if reply.WouldBlock? {
        SetEvents(WriteRearm);
        writeFlag := false;
        return true;
      }
      return false;
    }

    /** `Create` (lines 187-255). A negative `value` throws. A connection
        channel accepts on listening descriptor `value`: would-block gives a
        null pointer and any other failure throws. A listening channel on
        port `value` throws when `socket` or `listen` fails. A timer
        channel's descriptor is not checked. A new channel has its role's
        initial mask pushed once, and only a timer channel gets a read
        handler (the timer drain). */
    static method Create(loop: EventLoop, value: int, kind: ChannelType, os: OsReply) returns (r: Created)
      ensures value < 0 ==> r == Threw
      ensures value >= 0 && kind == EventChannel ==>
        (r.NewChannel? <==> os.Fd?) && (r.NoChannel? <==> os.Eagain?) && (r.Threw? <==> os.Errno?)
      ensures value >= 0 && kind == ListenChannel ==> (r.NewChannel? <==> os.Fd?) && (r.Threw? <==> !os.Fd?)
      ensures value >= 0 && kind == TimerChannel ==> r.NewChannel?
      ensures r.NewChannel? ==>
        var ch := r.ch;
        && fresh(ch) && ch.loop == loop
        && ch.fd == (if os.Fd? then os.fd else -1)
        && ch.listenfd == (match kind case EventChannel => value case TimerChannel => 0 case ListenChannel => ch.fd)
        && ch.events == InitialEvents(kind) && ch.trace == [UpdateChannel(InitialEvents(kind))]
        && ch.revents == 0 && !ch.alive && !ch.writeFlag
        && ch.readHandler == (if kind == TimerChannel then TimerfdRead else Unset) && ch.writeHandler == Unset
        && ch.readCallback == NoCallback && ch.writeCallback == NoCallback && ch.communicateCallback == NoCallback
    {
      if value < 0 {
        return Threw;
      }
      var ch := new Channel(loop);
      var sockfd: int;
      var listenfd: int;
      if kind == EventChannel {
        listenfd := value;
        if !os.Fd? {
          if os.Eagain? {
            return NoChannel;
          }
          return Threw;
        }
        sockfd := os.fd;
      } else if kind == TimerChannel {
        ch.readHandler := TimerfdRead;
        sockfd := if os.Fd? then os.fd else -1;
        listenfd := 0;
      } else {
        if !os.Fd? {
          return Threw;
        }
        sockfd := os.fd;
        listenfd := sockfd;
      }
      ch.fd := sockfd;
      ch.SetEvents(InitialEvents(kind));
      ch.listenfd := listenfd;
      return NewChannel(ch);
    }

    /** `DefaultListenfdReadEventHandler` (lines 353-378). At the ceiling it
        returns at once; otherwise it accepts through `Create`, and only on a
        successful accept hands the loop's callbacks to the new channel,
        registers it, counts it, and re-arms itself for reading, pushing the
        mask twice (through the loop and to the poller directly). `os` is
        what the accept reports. */
    method DefaultListenfdReadEventHandler(os: OsReply) returns (outcome: ListenOutcome)
      modifies this`events, this`trace, loop`channelNum, loop`registered
      ensures old(loop.channelNum) >= loop.maxChannelNum ==> outcome == AtCapacity
      ensures old(loop.channelNum) < loop.maxChannelNum ==>
        && (outcome.Admitted? <==> fd >= 0 && os.Fd?)
        && (outcome == NotAccepted <==> fd >= 0 && os.Eagain?)
        && (outcome == AcceptThrew <==> fd < 0 || os.Errno?)
      ensures !outcome.Admitted? ==>
        && loop.channelNum == old(loop.channelNum) && loop.registered == old(loop.registered)
        && events == old(events) && trace == old(trace)
      ensures outcome.Admitted? ==>
        var conn := outcome.conn;
        && fresh(conn) && conn.loop == loop && conn.fd == os.fd && conn.listenfd == fd
        && conn.events == InitialEvents(EventChannel)
        && conn.readCallback == loop.readCallback && conn.writeCallback == loop.writeCallback
        && conn.communicateCallback == loop.communicateCallback
        && loop.registered == old(loop.registered) + [conn]
        && loop.channelNum == old(loop.channelNum) + 1 <= loop.maxChannelNum
        && events == ListenRearm
        && trace == old(trace) + [UpdateChannel(ListenRearm), PollerUpdate(fd, ListenRearm)]
    {
      var loop := this.loop;
      if loop.channelNum >= loop.maxChannelNum {
        return AtCapacity;
      }
      var created := Create(loop, fd, EventChannel, os);
      if !created.NewChannel? {
        return if created.NoChannel? then NotAccepted else AcceptThrew;
      }
      var conn := created.ch;
      conn.SetReadCallback(loop.readCallback);
      conn.SetWriteCallback(loop.writeCallback);
      conn.SetCommunicateCallback(loop.communicateCallback);
      loop.AddChannel(conn);
      loop.AddChannelnum();
      SetEvents(ListenRearm);
      trace := trace + [PollerUpdate(fd, events)];
      return Admitted(conn);
    }

    /** `DefaultTimerfdReadEventHandler` (lines 445-467). `expired` is what
        the loop's timer store reports due now. The handle re-arms itself
        before any timer runs; then each timer meets its fate in order. */
    method DefaultTimerfdReadEventHandler(expired: seq<Timer>)
      modifies this`events, this`trace
      ensures events == TimerRearm
      ensures trace == old(trace) + [UpdateChannel(TimerRearm)] + Drain(expired)
    {
      SetEvents(TimerRearm);
      var i := 0;
      while i < |expired|
        invariant 0 <= i <= |expired|
        invariant events == TimerRearm
        invariant trace == old(trace) + [UpdateChannel(TimerRearm)] + Drain(expired[..i])
      {
        var timer := expired[i];
        assert expired[..i + 1][..i] == expired[..i];
        if !timer.alive {
          trace := trace + [DeleteTimer(timer)];
        } else {
          trace := trace + [RunTimer(timer)];
          if timer.repeats {
            trace := trace + [ReinsertTimer(timer)];
          } else {
            trace := trace + [DeleteTimer(timer)];
          }
        }
        i := i + 1;
      }
      assert expired[..|expired|] == expired;
    }
  }
}
