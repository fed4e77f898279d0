/**
 * The peer thread of the test harness (src/libchitcp/tester_peer.c,
 * src/libchitcp/tester_peer.h): a state machine driven by one pending event
 * at a time.
 *
 * The socket calls the peer makes go to the daemon over its socket API; the
 * model takes their results as parameters. A failed call makes the C code
 * call exit(-1), which the model reports as `ProcessExits`. The locks and
 * condition variables are not modelled: a step with no pending event
 * reports that the thread would sleep, and posting while an event is
 * pending reports that the poster would wait.
 */
module TesterPeer {
  import opened Base

  /** test_event_t. */
  datatype TestEvent = EV_NONE | EV_INIT | EV_LISTEN | EV_ACCEPT | EV_CONNECT | EV_RUN | EV_CLOSE | EV_EXIT

  /** peer_state_t. */
  datatype PeerState =
    | UNINITIALIZED | INITIALIZED
    | SERVER_LISTENING | SERVER_READY | SERVER_CLOSING | SERVER_CLOSED
    | CLIENT_CONNECTING | CLIENT_READY | CLIENT_CLOSING | CLIENT_CLOSED
    | RUNNING_FUNCTION

  /**
   * The fields of chitcp_tester_peer_t that the thread reads and writes;
   * `closed` lists the descriptors the peer has closed, in order.
   */
  datatype Peer = Peer(sockfd: int, passiveSockfd: int, event: TestEvent, state: PeerState, closed: seq<int>)

  /** The results the socket API hands back to the peer during one step. */
  datatype SocketApi = SocketApi(
    /** What chisocket_socket returns. */
    socketFd: int,
    /** What chisocket_accept returns. */
    acceptFd: int,
    /**
     * Whether bind, listen, connect, close and the debug registration succeed;
     * INIT registers a debug handler only when the peer has one, so without
     * one this is simply true for INIT.
     */
    othersSucceed: bool)

  datatype StepResult =
    | Sleeps
      /** The event was handled: the new peer, the states it passed through in order, and whether the loop ends. */
    | Stepped(peer: Peer, trace: seq<PeerState>, done: bool)
    | ProcessExits

  /** chitcp_tester_peer_event: a new event is stored only while none is pending; otherwise the caller waits (None). */
  function PostEvent(p: Peer, ev: TestEvent): (r: Option<Peer>)
    ensures r.Some? <==> p.event == EV_NONE
    ensures r.Some? ==> r.value == p.(event := ev)
  {
    if p.event != EV_NONE then None else Some(p.(event := ev))
  }

  /** The state a CLOSE event ends in: a ready server or client ends closed, any other state is kept. */
  function CloseTarget(s: PeerState): (r: PeerState) {
    match s
    case SERVER_READY => SERVER_CLOSED
    case CLIENT_READY => CLIENT_CLOSED
    case _ => s
  }

  /** chitcp_tester_peer_close: the active descriptor, then the listening one if there is one. */
  function ClosePeer(p: Peer, api: SocketApi): (r: Option<Peer>)
    ensures r.Some? <==> api.othersSucceed
    ensures r.Some? ==> r.value == p.(closed := p.closed + [p.sockfd] + (if p.passiveSockfd != -1 then [p.passiveSockfd] else []))
  {
    if !api.othersSucceed then None
    else if p.passiveSockfd != -1 then Some(p.(closed := p.closed + [p.sockfd, p.passiveSockfd]))
    else Some(p.(closed := p.closed + [p.sockfd]))
  }

  /**
   * One iteration of chitcp_tester_peer_thread_func: handle the pending
   * event, record each state update, then clear the event.
   */
  function PeerStep(p: Peer, api: SocketApi): (r: StepResult)
    ensures r.Sleeps? <==> p.event == EV_NONE
    ensures r.Stepped? ==> r.peer.event == EV_NONE && (r.done <==> p.event == EV_EXIT)
    ensures r.Stepped? && |r.trace| > 0 ==> r.peer.state == r.trace[|r.trace| - 1]
    ensures r.Stepped? && |r.trace| == 0 ==> r.peer.state == p.state
    ensures r.ProcessExits? <==>
      || (p.event == EV_INIT && (api.socketFd == -1 || !api.othersSucceed))
      || (p.event == EV_ACCEPT && api.acceptFd == -1)
      || (p.event in {EV_LISTEN, EV_CONNECT, EV_CLOSE} && !api.othersSucceed)
  {
    match p.event
    case EV_NONE => Sleeps
    case EV_INIT =>
      if api.socketFd == -1 || !api.othersSucceed then ProcessExits
      else Stepped(p.(sockfd := api.socketFd, passiveSockfd := -1, state := INITIALIZED, event := EV_NONE), [INITIALIZED], false)
    case EV_LISTEN =>
      if !api.othersSucceed then ProcessExits
      else Stepped(p.(state := SERVER_LISTENING, event := EV_NONE), [SERVER_LISTENING], false)
    case EV_ACCEPT =>
      if api.acceptFd == -1 then ProcessExits
      else Stepped(p.(passiveSockfd := p.sockfd, sockfd := api.acceptFd, state := SERVER_READY, event := EV_NONE), [SERVER_READY], false)
    case EV_CONNECT =>
      if !api.othersSucceed then ProcessExits
      else Stepped(p.(state := CLIENT_READY, event := EV_NONE), [CLIENT_READY], false)
    case EV_RUN =>
      Stepped(p.(event := EV_NONE), [RUNNING_FUNCTION, p.state], false)
    case EV_CLOSE =>
      var closing := if p.state == SERVER_READY then [SERVER_CLOSING]
                     else if p.state == CLIENT_READY then [CLIENT_CLOSING] else [];
      var newState := if p.state == SERVER_READY then SERVER_CLOSED
                      else if p.state == CLIENT_READY then CLIENT_CLOSED else p.state;
      (match ClosePeer(p, api)
       case None => ProcessExits
       case Some(q) => Stepped(q.(state := newState, event := EV_NONE), closing + [newState], false))
    case EV_EXIT => Stepped(p.(event := EV_NONE), [], true)
  }

  /**
   * The four set-up events when their socket calls succeed: INIT opens a
   * fresh socket, LISTEN and CONNECT keep the descriptors, and ACCEPT makes
   * the accepted descriptor the active one and keeps the listening one as
   * the passive descriptor.
   */
  lemma FixedTransitions(p: Peer, api: SocketApi)
    ensures p.event == EV_INIT && api.socketFd != -1 && api.othersSucceed ==>
      PeerStep(p, api) == Stepped(p.(sockfd := api.socketFd, passiveSockfd := -1, state := INITIALIZED, event := EV_NONE), [INITIALIZED], false)
    ensures p.event == EV_LISTEN && api.othersSucceed ==>
      PeerStep(p, api) == Stepped(p.(state := SERVER_LISTENING, event := EV_NONE), [SERVER_LISTENING], false)
    ensures p.event == EV_ACCEPT && api.acceptFd != -1 ==>
      PeerStep(p, api) == Stepped(p.(sockfd := api.acceptFd, passiveSockfd := p.sockfd, state := SERVER_READY, event := EV_NONE), [SERVER_READY], false)
    ensures p.event == EV_CONNECT && api.othersSucceed ==>
      PeerStep(p, api) == Stepped(p.(state := CLIENT_READY, event := EV_NONE), [CLIENT_READY], false)
  {
  }

  /** RUN passes through RUNNING_FUNCTION and then restores the state it started in. */
  lemma RunRestoresState(p: Peer, api: SocketApi)
    requires p.event == EV_RUN
    ensures PeerStep(p, api) == Stepped(p.(event := EV_NONE), [RUNNING_FUNCTION, p.state], false)
  {
  }

  /**
   * CLOSE ends in CloseTarget of the state it started in; a ready peer
   * passes through the matching closing state first, and any other state
   * is left as it was.
   */
  lemma CloseFollowsTable(p: Peer, api: SocketApi)
    requires p.event == EV_CLOSE && api.othersSucceed
    ensures var r := PeerStep(p, api);
      && r.Stepped? && r.peer.state == CloseTarget(p.state)
      && (p.state == SERVER_READY ==> r.trace == [SERVER_CLOSING, SERVER_CLOSED])
      && (p.state == CLIENT_READY ==> r.trace == [CLIENT_CLOSING, CLIENT_CLOSED])
      && (p.state != SERVER_READY && p.state != CLIENT_READY ==> r.trace == [p.state] && r.peer.state == p.state)
  {
  }

  /** After a handled event the slot is free again, so the next post goes through at once. */
  lemma PostAfterStep(p: Peer, ev: TestEvent, api: SocketApi, next: TestEvent)
    requires p.event == EV_NONE && ev != EV_NONE
    ensures PostEvent(p, ev).Some?
    ensures PostEvent(PostEvent(p, ev).value, next).None?
    ensures var r := PeerStep(PostEvent(p, ev).value, api);
      r.Stepped? ==> PostEvent(r.peer, next) == Some(r.peer.(event := next))
  {
  }

  /** Runs a sequence of events, each posted to an idle peer and handled with the same API results. */
  function RunEvents(p: Peer, evs: seq<TestEvent>, api: SocketApi): (r: Option<Peer>)
    decreases |evs|
  {
    if |evs| == 0 then Some(p)
    else if p.event != EV_NONE || evs[0] == EV_NONE then None
    else match PeerStep(p.(event := evs[0]), api)
      case Stepped(q, _, false) => RunEvents(q, evs[1..], api)
      case _ => None
  }

  /**
   * The server's life: INIT, LISTEN, ACCEPT and CLOSE end in SERVER_CLOSED
   * with the accepted descriptor closed before the listening one.
   */
  lemma ServerLifecycle(p: Peer, api: SocketApi)
    requires p.event == EV_NONE && api.socketFd != -1 && api.acceptFd != -1 && api.othersSucceed
    ensures var r := RunEvents(p, [EV_INIT, EV_LISTEN, EV_ACCEPT, EV_CLOSE], api);
      && r.Some? && r.value.state == SERVER_CLOSED
      && r.value.sockfd == api.acceptFd && r.value.passiveSockfd == api.socketFd
      && r.value.closed == p.closed + [api.acceptFd, api.socketFd]
  {
    var p1 := p.(sockfd := api.socketFd, passiveSockfd := -1, state := INITIALIZED);
    var p2 := p1.(state := SERVER_LISTENING);
    var p3 := p2.(passiveSockfd := api.socketFd, sockfd := api.acceptFd, state := SERVER_READY);
    assert RunEvents(p3, [EV_CLOSE], api) == RunEvents(p3.(state := SERVER_CLOSED, closed := p.closed + [api.acceptFd, api.socketFd]), [], api);
    assert [EV_INIT, EV_LISTEN, EV_ACCEPT, EV_CLOSE][1..] == [EV_LISTEN, EV_ACCEPT, EV_CLOSE];
    assert [EV_LISTEN, EV_ACCEPT, EV_CLOSE][1..] == [EV_ACCEPT, EV_CLOSE];
    assert [EV_ACCEPT, EV_CLOSE][1..] == [EV_CLOSE];
  }

  /**
   * The client's life: INIT, CONNECT and CLOSE end in CLIENT_CLOSED with
   * only the one descriptor closed, since there is no listening descriptor.
   */
  lemma ClientLifecycle(p: Peer, api: SocketApi)
    requires p.event == EV_NONE && api.socketFd != -1 && api.othersSucceed
    ensures var r := RunEvents(p, [EV_INIT, EV_CONNECT, EV_CLOSE], api);
      && r.Some? && r.value.state == CLIENT_CLOSED && r.value.closed == p.closed + [api.socketFd]
  {
    assert [EV_INIT, EV_CONNECT, EV_CLOSE][1..] == [EV_CONNECT, EV_CLOSE];
    assert [EV_CONNECT, EV_CLOSE][1..] == [EV_CLOSE];
  }
}
