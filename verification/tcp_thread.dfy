/**
 * The event loop of a socket's TCP thread (src/chitcpd/tcp_thread.c) and the
 * event types of src/chitcpd/tcp.h.
 *
 * One iteration of the loop takes the highest-priority raised flag, clears
 * it, and hands the matching event to the handler of the socket's current
 * state. The handlers themselves (src/chitcpd/tcp.c) are the part of chiTCP
 * that students write, so the model takes them as a parameter. The lock,
 * the condition-variable wait and the thread itself are not modelled: a
 * step with no raised flag reports that the thread would sleep.
 */
module TcpThread {
  import opened Base
  import ServerInfo
  import CircularBuffer

  /** tcp_event_type_t. */
  datatype TcpEvent =
    | APPLICATION_CONNECT | APPLICATION_SEND | APPLICATION_RECEIVE | APPLICATION_CLOSE
    | PACKET_ARRIVAL | TIMEOUT_RTX | TIMEOUT_PST | CLEANUP
  {
    /** The value of each enumerator, starting at 1. */
    function Code(): (r: nat)
      ensures 1 <= r <= 8
    {
      match this
      case APPLICATION_CONNECT => 1
      case APPLICATION_SEND => 2
      case APPLICATION_RECEIVE => 3
      case APPLICATION_CLOSE => 4
      case PACKET_ARRIVAL => 5
      case TIMEOUT_RTX => 6
      case TIMEOUT_PST => 7
      case CLEANUP => 8
    }
  }

  /** tcp_event_type_names, looked up by tcp_event_str at the event's value minus one. */
  const TcpEventNames: seq<string> := [
    "APPLICATION_CONNECT", "APPLICATION_SEND", "APPLICATION_RECEIVE", "APPLICATION_CLOSE",
    "PACKET_ARRIVAL", "TIMEOUT_RTX", "TIMEOUT_PST", "CLEANUP"]

  /** tcp_event_str: each event is printed as its own enumerator name. */
  function TcpEventStr(ev: TcpEvent): (r: string)
    ensures r in TcpEventNames
  {
    TcpEventNames[ev.Code() - 1]
  }

  /** Distinct events have distinct names. */
  lemma TcpEventStrInjective(a: TcpEvent, b: TcpEvent)
    ensures TcpEventStr(a) == TcpEventStr(b) ==> a == b
  {
    if TcpEventStr(a) == TcpEventStr(b) {
      EventNamesDistinct(a.Code() - 1, b.Code() - 1);
    }
  }

  lemma EventNamesDistinct(i: nat, j: nat)
    requires i < |TcpEventNames| && j < |TcpEventNames|
    ensures TcpEventNames[i] == TcpEventNames[j] ==> i == j
  {
  }

  // ------------------------------------------------------------ flags and events

  /** The flag bit that signals each event. */
  function Raised(f: ServerInfo.Flags, ev: TcpEvent): bool {
    match ev
    case APPLICATION_CONNECT => f.appConnect
    case APPLICATION_SEND => f.appSend
    case APPLICATION_RECEIVE => f.appRecv
    case APPLICATION_CLOSE => f.appClose
    case PACKET_ARRIVAL => f.netRecv
    case TIMEOUT_RTX => f.timeoutRtx
    case TIMEOUT_PST => f.timeoutPst
    case CLEANUP => f.cleanup
  }

  /** The weight of each event's bit in the `raw` byte of the flags. */
  function BitOf(ev: TcpEvent): (r: nat)
    ensures r > 0
  {
    match ev
    case APPLICATION_CONNECT => 1
    case APPLICATION_SEND => 2
    case APPLICATION_RECEIVE => 4
    case PACKET_ARRIVAL => 8
    case APPLICATION_CLOSE => 16
    case TIMEOUT_RTX => 32
    case TIMEOUT_PST => 64
    case CLEANUP => 128
  }

  /** The flags with the bit of one event lowered and every other bit as it was. */
  function Clear(f: ServerInfo.Flags, ev: TcpEvent): (r: ServerInfo.Flags)
    ensures !Raised(r, ev)
    ensures forall other: TcpEvent :: other != ev ==> Raised(r, other) == Raised(f, other)
  {
    match ev
    case APPLICATION_CONNECT => f.(appConnect := false)
    case APPLICATION_SEND => f.(appSend := false)
    case APPLICATION_RECEIVE => f.(appRecv := false)
    case APPLICATION_CLOSE => f.(appClose := false)
    case PACKET_ARRIVAL => f.(netRecv := false)
    case TIMEOUT_RTX => f.(timeoutRtx := false)
    case TIMEOUT_PST => f.(timeoutPst := false)
    case CLEANUP => f.(cleanup := false)
  }

  /** Lowering a raised flag takes exactly its bit out of the raw byte, so a handled event leaves fewer events raised. */
  lemma ClearLowersRaw(f: ServerInfo.Flags, ev: TcpEvent)
    requires Raised(f, ev)
    ensures Clear(f, ev).Raw() == f.Raw() - BitOf(ev)
  {
  }

  /** The order in which the loop looks at the flags: cleanup first, the persist timeout last. */
  const Priority: seq<TcpEvent> := [
    CLEANUP, APPLICATION_CLOSE, APPLICATION_CONNECT, APPLICATION_RECEIVE,
    APPLICATION_SEND, PACKET_ARRIVAL, TIMEOUT_RTX, TIMEOUT_PST]

  /**
   * The if/else-if chain of the loop: which event one iteration handles, or
   * None when no flag is raised and the thread waits on its condition variable.
   */
  function SelectEvent(f: ServerInfo.Flags): (r: Option<TcpEvent>)
    ensures r.None? <==> f.Raw() == 0
    ensures r.Some? ==> Raised(f, r.value)
  {
    if f.cleanup then Some(CLEANUP)
    else if f.appClose then Some(APPLICATION_CLOSE)
    else if f.appConnect then Some(APPLICATION_CONNECT)
    else if f.appRecv then Some(APPLICATION_RECEIVE)
    else if f.appSend then Some(APPLICATION_SEND)
    else if f.netRecv then Some(PACKET_ARRIVAL)
    else if f.timeoutRtx then Some(TIMEOUT_RTX)
    else if f.timeoutPst then Some(TIMEOUT_PST)
    else None
  }

  /** The first event of Priority, from position i on, whose flag is raised. */
  function FirstRaised(f: ServerInfo.Flags, i: nat): (r: Option<TcpEvent>)
    requires i <= |Priority|
    decreases |Priority| - i
  {
    if i == |Priority| then None
    else if Raised(f, Priority[i]) then Some(Priority[i])
    else FirstRaised(f, i + 1)
  }

  /** The position of an event in Priority. */
  function Rank(ev: TcpEvent): (r: nat)
    ensures r < |Priority| && Priority[r] == ev
  {
    match ev
    case CLEANUP => 0
    case APPLICATION_CLOSE => 1
    case APPLICATION_CONNECT => 2
    case APPLICATION_RECEIVE => 3
    case APPLICATION_SEND => 4
    case PACKET_ARRIVAL => 5
    case TIMEOUT_RTX => 6
    case TIMEOUT_PST => 7
  }

  /**
   * The chain picks the raised event that comes first in Priority: the
   * chosen flag is raised, no event ranked before it is, and the chain
   * agrees with a scan of the priority list.
   */
  lemma SelectIsHighestPriority(f: ServerInfo.Flags)
    ensures SelectEvent(f) == FirstRaised(f, 0)
    ensures SelectEvent(f).Some? ==>
      forall ev: TcpEvent :: Rank(ev) < Rank(SelectEvent(f).value) ==> !Raised(f, ev)
  {
    FirstRaisedUnrolled(f);
  }

  lemma FirstRaisedUnrolled(f: ServerInfo.Flags)
    ensures FirstRaised(f, 0) ==
      if f.cleanup then Some(CLEANUP)
      else if f.appClose then Some(APPLICATION_CLOSE)
      else if f.appConnect then Some(APPLICATION_CONNECT)
      else if f.appRecv then Some(APPLICATION_RECEIVE)
      else if f.appSend then Some(APPLICATION_SEND)
      else if f.netRecv then Some(PACKET_ARRIVAL)
      else if f.timeoutRtx then Some(TIMEOUT_RTX)
      else if f.timeoutPst then Some(TIMEOUT_PST)
      else None
  {
    assert FirstRaised(f, 8) == None;
    assert FirstRaised(f, 7) == if f.timeoutPst then Some(TIMEOUT_PST) else None;
    assert FirstRaised(f, 6) == if f.timeoutRtx then Some(TIMEOUT_RTX) else FirstRaised(f, 7);
    assert FirstRaised(f, 5) == if f.netRecv then Some(PACKET_ARRIVAL) else FirstRaised(f, 6);
    assert FirstRaised(f, 4) == if f.appSend then Some(APPLICATION_SEND) else FirstRaised(f, 5);
    assert FirstRaised(f, 3) == if f.appRecv then Some(APPLICATION_RECEIVE) else FirstRaised(f, 4);
    assert FirstRaised(f, 2) == if f.appConnect then Some(APPLICATION_CONNECT) else FirstRaised(f, 3);
    assert FirstRaised(f, 1) == if f.appClose then Some(APPLICATION_CLOSE) else FirstRaised(f, 2);
  }

  // ------------------------------------------------------------ dispatch

  /** tcp_state_handlers: slot i holds the handler written for the state whose value is i. */
  const HandlerStates: seq<TcpState> := [
    CLOSED, LISTEN, SYN_RCVD, SYN_SENT, ESTABLISHED,
    FIN_WAIT_1, FIN_WAIT_2, CLOSE_WAIT, CLOSING, TIME_WAIT, LAST_ACK]

  /** Every state's value indexes the slot of its own handler. */
  lemma DispatchByState(s: TcpState)
    ensures StateIndex(s) < |HandlerStates| && HandlerStates[StateIndex(s)] == s
  {
  }

  /**
   * The handler of a state for an event, as written in tcp.c: it gets the
   * entry and returns the entry it leaves behind.
   */
  type Handler = (TcpState, TcpEvent, ServerInfo.Entry) -> ServerInfo.Entry

  /** chitcpd_dispatch_tcp: the handler of the state the entry is in when the event is dispatched. */
  function DispatchTcp(handle: Handler, e: ServerInfo.Entry, ev: TcpEvent): (r: ServerInfo.Entry)
  {
    handle(HandlerStates[StateIndex(e.state)], ev, e)
  }

  /** What one iteration of the loop does. */
  datatype Step =
    | Sleep
      /** The thread dispatched an event and goes round the loop again. */
    | Handled(event: TcpEvent, entry: ServerInfo.Entry)
      /** Cleanup was dispatched and the entry handed to chitcpd_free_socket_entry; the thread ends. */
    | Exited(entry: ServerInfo.Entry)
      /** The cleanup flag was raised outside CLOSED and the assert stops the daemon. */
    | AssertFailed

  /**
   * One iteration of chitcpd_tcp_thread_func. The chosen flag is cleared
   * before dispatch, except cleanup, after which the entry is freed anyway.
   * After a packet arrival, net_recv is raised again while packets remain
   * pending.
   */
  function ThreadStep(handle: Handler, e: ServerInfo.Entry): (r: Step)
    ensures r.Sleep? <==> e.flags == ServerInfo.NoFlags
    ensures r.AssertFailed? <==> e.flags.cleanup && e.state != CLOSED
    ensures r.Exited? ==> r.entry == DispatchTcp(handle, e, CLEANUP)
    ensures r.Handled? ==> SelectEvent(e.flags) == Some(r.event) && r.event != CLEANUP
  {
    match SelectEvent(e.flags)
    case None => Sleep
    case Some(ev) =>
      if ev == CLEANUP then
        if e.state != CLOSED then AssertFailed
        else Exited(DispatchTcp(handle, e, CLEANUP))
      else
        var after := DispatchTcp(handle, e.(flags := Clear(e.flags, ev)), ev);
        if ev == PACKET_ARRIVAL && after.pendingPackets > 0 then
          Handled(ev, after.(flags := after.flags.(netRecv := true)))
        else Handled(ev, after)
  }

  /**
   * The handler sees the entry with exactly the chosen flag cleared, and the
   * state the entry was in; the only change the loop itself makes after the
   * handler returns is to re-raise net_recv when packets are still pending.
   */
  lemma ThreadStepHandsOver(handle: Handler, e: ServerInfo.Entry)
    requires SelectEvent(e.flags).Some? && !e.flags.cleanup
    ensures var ev := SelectEvent(e.flags).value;
      var seen := e.(flags := Clear(e.flags, ev));
      var after := handle(e.state, ev, seen);
      && seen.flags.Raw() == e.flags.Raw() - BitOf(ev)
      && ThreadStep(handle, e) == Handled(ev,
           if ev == PACKET_ARRIVAL && after.pendingPackets > 0
           then after.(flags := after.flags.(netRecv := true)) else after)
  {
    var ev := SelectEvent(e.flags).value;
    ClearLowersRaw(e.flags, ev);
    DispatchByState(e.state);
  }

  /**
   * A packet arrival leaves net_recv raised after the step exactly when the
   * handler left it raised or left packets pending.
   */
  lemma PendingPacketsRearm(handle: Handler, e: ServerInfo.Entry)
    requires SelectEvent(e.flags) == Some(PACKET_ARRIVAL)
    ensures var after := DispatchTcp(handle, e.(flags := Clear(e.flags, PACKET_ARRIVAL)), PACKET_ARRIVAL);
      && ThreadStep(handle, e).Handled?
      && (ThreadStep(handle, e).entry.flags.netRecv <==> after.flags.netRecv || after.pendingPackets > 0)
      && ThreadStep(handle, e).entry.pendingPackets == after.pendingPackets
  {
  }

  /**
   * While the cleanup flag is raised no other event is handled: a CLOSED
   * entry with cleanup raised exits, whatever else is raised.
   */
  lemma CleanupPreempts(handle: Handler, e: ServerInfo.Entry)
    requires e.flags.cleanup && e.state == CLOSED
    ensures ThreadStep(handle, e) == Exited(handle(CLOSED, CLEANUP, e))
  {
    DispatchByState(CLOSED);
  }

  /** The buffers a TCP thread sets up when it starts: both empty, with room for TCP_BUFFER_SIZE bytes. */
  const TCP_BUFFER_SIZE: uint32 := 4096

  /** The start of chitcpd_tcp_thread_func: both buffers initialised; the fresh arrays hold whatever malloc returned. */
  function StartThread(e: ServerInfo.Entry, sendGarbage: seq<byte>, recvGarbage: seq<byte>): (r: ServerInfo.Entry)
    requires |sendGarbage| == TCP_BUFFER_SIZE && |recvGarbage| == TCP_BUFFER_SIZE
    ensures CircularBuffer.Valid(r.sendBuf) && CircularBuffer.Valid(r.recvBuf)
    ensures CircularBuffer.Contents(r.sendBuf) == [] && CircularBuffer.Contents(r.recvBuf) == []
    ensures CircularBuffer.Capacity(r.sendBuf) == TCP_BUFFER_SIZE
    ensures CircularBuffer.Available(r.recvBuf) == TCP_BUFFER_SIZE
    ensures r.(sendBuf := e.sendBuf, recvBuf := e.recvBuf) == e
  {
    e.(sendBuf := CircularBuffer.Init(TCP_BUFFER_SIZE, sendGarbage),
       recvBuf := CircularBuffer.Init(TCP_BUFFER_SIZE, recvGarbage))
  }
}
