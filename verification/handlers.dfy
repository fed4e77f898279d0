/**
 * The validation and outcome logic of the daemon's request handlers
 * (src/chitcpd/handlers.c) for socket, bind, listen, connect, send, recv,
 * close and wait-for-state.
 *
 * Every handler returns CHITCP_OK to its dispatcher; what the application
 * sees travels in the response's `ret` and `error_code`. A handler that
 * sleeps on a condition variable is reported as `Waits` with the table as
 * it stands when it goes to sleep; the functions named ...WaitOver say when
 * such a wait ends and what the handler then answers. Messages to the peer
 * daemon and the TCP thread's own work are not modelled.
 */
module Handlers {
  import opened Base
  import opened Addr
  import ByteOrder
  import CircularBuffer
  import opened ServerInfo

  /** The response fields: ret, error_code and, for recv, the bytes read. */
  datatype Reply = Reply(ret: int, errorCode: int, payload: seq<byte>)

  function Ok(ret: int): Reply {
    Reply(ret, 0, [])
  }

  function Fail(e: Errno): Reply {
    Reply(-1, e.Code(), [])
  }

  datatype Outcome =
      /** The handler returned `rc` with this response and left this table. */
    | Done(rc: int, reply: Reply, si: Server)
      /** The handler sleeps on a condition variable; the table is as it left it. */
    | Waits(si: Server)
      /** An assert() in the handler or a helper fails and the daemon stops. */
    | Aborted
      /** The handler reads outside the socket table. */
    | Undefined

  /** The descriptor check shared by the handlers: in range and in use. */
  predicate Open(si: Server, sockfd: int) {
    0 <= sockfd < |si.table| && !si.table[sockfd].available
  }

  /** The table with one entry replaced. */
  function Put(si: Server, sockfd: nat, e: Entry): (r: Server)
    requires sockfd < |si.table|
    ensures r.portTable == si.portTable && r.ephemeralStart == si.ephemeralStart
    ensures r.table == si.table[sockfd := e]
  {
    si.(table := si.table[sockfd := e])
  }

  /** Replacing an entry by one with valid buffers keeps the table valid. */
  lemma PutValid(si: Server, sockfd: nat, e: Entry)
    requires Valid(si) && sockfd < |si.table|
    requires CircularBuffer.Valid(e.sendBuf) && CircularBuffer.Valid(e.recvBuf)
    ensures Valid(Put(si, sockfd, e))
  {
  }

  // ------------------------------------------------------------ socket

  /** CHITCPD_MSG_CODE__SOCKET: a new descriptor from the lowest free slot, or ENOMEM. */
  method Socket(si: Server, domain: int, sockType: int, protocol: int) returns (r: Outcome)
    requires Valid(si)
    ensures r.Done? && r.rc == CHITCP_OK && Valid(r.si)
    ensures LowestAvailable(si.table, 0).None? ==> r.reply == Fail(ENOMEM) && r.si == si
    ensures LowestAvailable(si.table, 0).Some? ==>
      var i := LowestAvailable(si.table, 0).value;
      && r.reply == Ok(i)
      && r.si == Put(si, i, Claim(si.table[i]).(domain := domain, sockType := sockType, protocol := protocol))
  {
    var ret, index, si' := AllocateSocket(si);
    if ret == CHITCP_OK {
      var e := si'.table[index].(domain := domain, sockType := sockType, protocol := protocol);
      PutValid(si, index, e);
      r := Done(CHITCP_OK, Ok(index), Put(si, index, e));
    } else {
      r := Done(CHITCP_OK, Fail(ENOMEM), si);
    }
  }

  // ------------------------------------------------------------ bind

  /** The port-table slot a bind of this address asks for: the address's port in host order. */
  function BindPort(addr: SockAddr): uint16 {
    ByteOrder.Swap16(GetAddrPort(addr))
  }

  /**
   * CHITCPD_MSG_CODE__BIND. The checks for a negative port and for a port
   * above the table size can never fire (the port is a uint16_t and the
   * table covers every uint16_t value) and are kept as written. An address
   * of another family passes the checks with port 65535 and then stops the
   * daemon in chitcp_addr_set_any.
   */
  function Bind(si: Server, sockfd: int, addr: SockAddr): (r: Outcome)
    requires Valid(si)
    ensures !Open(si, sockfd) ==> r == Done(CHITCP_OK, Fail(EBADF), si)
    ensures Open(si, sockfd) && si.table[sockfd].state != CLOSED ==> r == Done(CHITCP_OK, Fail(EBADF), si)
    ensures Open(si, sockfd) && si.table[sockfd].state == CLOSED && si.portTable[BindPort(addr)].Some? ==>
      r == Done(CHITCP_OK, Fail(EINVAL), si)
    ensures r.Aborted? <==>
      Open(si, sockfd) && si.table[sockfd].state == CLOSED && si.portTable[BindPort(addr)].None? && !addr.IsInet()
    ensures r.Done? && r.reply.ret == 0 ==>
      && r.rc == CHITCP_OK && r.reply == Ok(0)
      && addr.IsInet() && Open(si, sockfd) && si.portTable[HostPort(addr)].None?
      && r.si == Bound(si, sockfd, addr)
    ensures Open(si, sockfd) && si.table[sockfd].state == CLOSED && si.portTable[BindPort(addr)].None? && addr.IsInet() ==>
      r == Done(CHITCP_OK, Ok(0), Bound(si, sockfd, addr))
    ensures !r.Undefined? && !r.Waits?
  {
    if sockfd < 0 || sockfd >= |si.table| || si.table[sockfd].available then
      Done(CHITCP_OK, Fail(EBADF), si)
    else if si.table[sockfd].state != CLOSED then Done(CHITCP_OK, Fail(EBADF), si)
    else
      var port := BindPort(addr);
      if port < 0 then Done(CHITCP_OK, Fail(EINVAL), si)
      else if port > |si.portTable| then Done(CHITCP_OK, Fail(EINVAL), si)
      else if si.portTable[port].Some? then Done(CHITCP_OK, Fail(EINVAL), si)
      else if !addr.IsInet() then Aborted
      else Done(CHITCP_OK, Ok(0), Bound(si, sockfd, addr))
  }

  /** Taking a port for a socket in the table keeps the table valid. */
  lemma ClaimPortValid(si: Server, sockfd: nat, port: nat)
    requires Valid(si) && sockfd < |si.table| && port < PORT_TABLE_SIZE
    ensures Valid(si.(portTable := si.portTable[port := Some(sockfd)]))
  {
  }

  /**
   * The table a successful bind leaves: the socket's local address is the
   * one given, its remote address is the wildcard of the same family with
   * port 0, and it holds the port; nothing else changes.
   */
  function Bound(si: Server, sockfd: nat, addr: SockAddr): (r: Server)
    requires Valid(si) && sockfd < |si.table| && addr.IsInet()
    ensures Valid(r) && |r.table| == |si.table|
    ensures r.portTable == si.portTable[HostPort(addr) := Some(sockfd)]
    ensures r.table[sockfd].local == addr
    ensures r.table[sockfd].remote.Family() == addr.Family()
    ensures IsAny(r.table[sockfd].remote) && r.table[sockfd].remote.port == 0
    ensures r.table == si.table[sockfd := si.table[sockfd].(local := addr, remote := r.table[sockfd].remote)]
  {
    var remote := SetAddrPort(SetAny(addr), 0);
    SetAnyIsAny(addr);
    AnyIgnoresPort(SetAny(addr), 0);
    var e := si.table[sockfd].(local := addr, remote := remote);
    PutValid(si, sockfd, e);
    ClaimPortValid(Put(si, sockfd, e), sockfd, HostPort(addr));
    Put(si, sockfd, e).(portTable := si.portTable[HostPort(addr) := Some(sockfd)])
  }

  /**
   * A bound port is held: a second bind of the same port by any socket is
   * refused with EINVAL, and releasing the bound socket frees the port again.
   */
  lemma BindClaimsPort(si: Server, sockfd: nat, other: int, addr: SockAddr)
    requires Valid(si) && Bind(si, sockfd, addr).Done? && Bind(si, sockfd, addr).reply.ret == 0
    ensures var si' := Bind(si, sockfd, addr).si;
      && (Open(si', other) && si'.table[other].state == CLOSED ==> Bind(si', other, addr) == Done(CHITCP_OK, Fail(EINVAL), si'))
      && sockfd < |si'.table|
      && FreeSocketEntry(si', sockfd).portTable[BindPort(addr)].None?
  {
    var si' := Bind(si, sockfd, addr).si;
    assert si'.portTable[BindPort(addr)] == Some(sockfd);
    assert si'.table[sockfd].local == addr;
  }

  // ------------------------------------------------------------ listen

  /** CHITCPD_MSG_CODE__LISTEN: a CLOSED socket becomes a passive socket in LISTEN with no pending connections. */
  function Listen(si: Server, sockfd: int, backlog: int): (r: Outcome)
    requires Valid(si)
    ensures r.Done? && r.rc == CHITCP_OK && Valid(r.si)
    ensures r.reply == Ok(0) <==> Open(si, sockfd) && si.table[sockfd].state == CLOSED
    ensures r.reply != Ok(0) ==> r.reply == Fail(EBADF) && r.si == si
    ensures r.reply == Ok(0) ==>
      && Open(si, sockfd) && |r.si.table| == |si.table|
      && r.si.table[sockfd].actpas == SOCKET_PASSIVE && r.si.table[sockfd].state == LISTEN
      && r.si.table[sockfd].backlog == backlog && r.si.table[sockfd].pendingConnections == 0
      && r.si.portTable == si.portTable
      && forall j :: 0 <= j < |si.table| && j != sockfd ==> r.si.table[j] == si.table[j]
  {
    if sockfd < 0 || sockfd >= |si.table| || si.table[sockfd].available then
      Done(CHITCP_OK, Fail(EBADF), si)
    else if si.table[sockfd].state != CLOSED then Done(CHITCP_OK, Fail(EBADF), si)
    else
      var e := si.table[sockfd].(actpas := SOCKET_PASSIVE, state := LISTEN, backlog := backlog, pendingConnections := 0);
      Done(CHITCP_OK, Ok(0), Put(si, sockfd, e))
  }

  // ------------------------------------------------------------ connect

  /** The ephemeral port the header documents: the lowest free one, or -1. */
  function EphemeralPort(si: Server): (r: int)
    requires Valid(si)
    ensures r == -1 || (si.ephemeralStart <= r < PORT_TABLE_SIZE && si.portTable[r].None?)
  {
    var p := FirstFreePort(si.portTable, si.ephemeralStart);
    if p.None? then -1 else p.value
  }

  /** The local address a connecting socket gets: the loopback address itself, else the wildcard address, with the chosen port. */
  function ConnectLocal(addr: SockAddr, port: uint16): (r: SockAddr)
    requires addr.IsInet()
    ensures r.IsInet() && r.Family() == addr.Family() && HostPort(r) == port
    ensures IsLoopback(addr) ==> r.Ip() == addr.Ip()
    ensures !IsLoopback(addr) ==> IsAny(r)
  {
    var base := if IsLoopback(addr) then addr else SetAny(addr);
    PortedLocal(addr, base, port);
    SetAddrPort(base, ByteOrder.Swap16(port))
  }

  /** The port goes in through htons, and neither it nor set_any disturbs the family or the IP bytes. */
  lemma PortedLocal(addr: SockAddr, base: SockAddr, port: uint16)
    requires addr.IsInet() && base == (if IsLoopback(addr) then addr else SetAny(addr))
    ensures base.IsInet() && base.Family() == addr.Family()
    ensures var r := SetAddrPort(base, ByteOrder.Swap16(port));
      && r.IsInet() && r.Family() == addr.Family() && HostPort(r) == port
      && (IsLoopback(addr) ==> r.Ip() == addr.Ip())
      && (!IsLoopback(addr) ==> IsAny(r))
  {
    ByteOrder.Swap16Involutive(port);
    if !IsLoopback(addr) {
      SetAnyIsAny(addr);
      AnyIgnoresPort(base, ByteOrder.Swap16(port));
    }
  }

  /**
   * CHITCPD_MSG_CODE__CONNECT once the ephemeral port is known: -1 means no
   * port. On success the socket becomes active with only app_connect
   * raised, takes the port, and the handler waits for ESTABLISHED. Looking
   * up or opening the connection to the peer daemon, tcp_data_init and the
   * start of the TCP thread are not modelled.
   */
  function ConnectWithPort(si: Server, sockfd: int, addr: SockAddr, port: int): (r: Outcome)
    requires Valid(si) && -1 <= port < PORT_TABLE_SIZE
    ensures !Open(si, sockfd) ==> r == Done(CHITCP_OK, Fail(EBADF), si)
    ensures Open(si, sockfd) && si.table[sockfd].state != CLOSED ==> r == Done(CHITCP_OK, Fail(EALREADY), si)
    ensures Open(si, sockfd) && si.table[sockfd].state == CLOSED && port == -1 ==> r == Done(CHITCP_OK, Fail(EAGAIN), si)
    ensures r.Aborted? <==> Open(si, sockfd) && si.table[sockfd].state == CLOSED && port != -1 && !addr.IsInet()
    ensures r.Waits? ==>
      && Open(si, sockfd) && 0 <= port && addr.IsInet()
      && r.si == Connected(si, sockfd, addr, port)
    ensures Open(si, sockfd) && si.table[sockfd].state == CLOSED && port != -1 && addr.IsInet() ==>
      r == Waits(Connected(si, sockfd, addr, port))
    ensures !r.Undefined? && (r.Done? ==> r.rc == CHITCP_OK && r.reply.ret == -1)
  {
    if sockfd < 0 || sockfd >= |si.table| || si.table[sockfd].available then
      Done(CHITCP_OK, Fail(EBADF), si)
    else if si.table[sockfd].state != CLOSED then Done(CHITCP_OK, Fail(EALREADY), si)
    else if port == -1 then Done(CHITCP_OK, Fail(EAGAIN), si)
    else if !addr.IsInet() then Aborted
    else Waits(Connected(si, sockfd, addr, port))
  }

  /**
   * The table a successful connect leaves while it waits: the socket is
   * active with only app_connect raised, holds the port, and has the peer
   * as its remote address; nothing else changes.
   */
  function Connected(si: Server, sockfd: nat, addr: SockAddr, port: nat): (r: Server)
    requires Valid(si) && sockfd < |si.table| && port < PORT_TABLE_SIZE && addr.IsInet()
    ensures Valid(r) && |r.table| == |si.table|
    ensures r.portTable == si.portTable[port := Some(sockfd)]
    ensures r.table[sockfd].actpas == SOCKET_ACTIVE
    ensures r.table[sockfd].flags == NoFlags.(appConnect := true)
    ensures r.table[sockfd].remote == addr
    ensures r.table[sockfd].local == ConnectLocal(addr, port)
    ensures forall j :: 0 <= j < |si.table| && j != sockfd ==> r.table[j] == si.table[j]
  {
    var e := si.table[sockfd].(actpas := SOCKET_ACTIVE, flags := NoFlags.(appConnect := true),
                               local := ConnectLocal(addr, port), remote := addr);
    PutValid(si, sockfd, e);
    ClaimPortValid(Put(si, sockfd, e), sockfd, port);
    Put(si, sockfd, e).(portTable := si.portTable[port := Some(sockfd)])
  }

  /** The connect handler with the search the header documents, where -1 means that no port is free. */
  method Connect(si: Server, sockfd: int, addr: SockAddr) returns (r: Outcome)
    requires Valid(si)
    ensures r == ConnectWithPort(si, sockfd, addr, EphemeralPort(si))
    ensures r.Waits? ==> var p := EphemeralPort(si);
      si.portTable[p].None? && r.si.portTable[p] == Some(sockfd)
  {
    var port := FindEphemeralPort(si);
    r := ConnectWithPort(si, sockfd, addr, port);
  }

  /**
   * The connect handler as written: chitcpd_find_ephemeral_port returns a
   * uint16_t, so the `port == -1` test never holds, and with every
   * ephemeral port taken the socket is given port 65535.
   */
  method ConnectAsWritten(si: Server, sockfd: int, addr: SockAddr) returns (r: Outcome)
    requires Valid(si)
    ensures r == ConnectWithPort(si, sockfd, addr, ToUint16(EphemeralPort(si)))
    ensures !r.Done? || r.reply != Fail(EAGAIN)
  {
    var port := FindEphemeralPortAsWritten(si);
    r := ConnectWithPort(si, sockfd, addr, port);
  }

  /**
   * With every ephemeral port taken, the corrected handler answers EAGAIN
   * and changes nothing, while the handler as written takes port 65535 away
   * from the socket that holds it.
   */
  lemma ConnectExhausted(si: Server, sockfd: nat, addr: SockAddr)
    requires Valid(si) && FirstFreePort(si.portTable, si.ephemeralStart).None?
    requires Open(si, sockfd) && si.table[sockfd].state == CLOSED && addr.IsInet()
    ensures ConnectWithPort(si, sockfd, addr, EphemeralPort(si)) == Done(CHITCP_OK, Fail(EAGAIN), si)
    ensures var holder := si.portTable[65535];
      var r := ConnectWithPort(si, sockfd, addr, ToUint16(EphemeralPort(si)));
      && holder.Some?
      && r.Waits? && r.si.portTable[65535] == Some(sockfd)
      && (holder.value != sockfd ==> r.si.portTable[65535] != holder)
  {
    assert EphemeralPort(si) == -1;
    assert ToUint16(-1) == 65535;
    assert si.portTable[65535].Some?;
    var r := ConnectWithPort(si, sockfd, addr, 65535);
    assert r == Waits(Connected(si, sockfd, addr, 65535));
  }

  /** The connect handler's wait ends when the socket reaches ESTABLISHED, and it then answers 0. */
  function ConnectWaitOver(now: TcpState): (r: Option<Reply>)
    ensures r.Some? <==> now == ESTABLISHED
    ensures r.Some? ==> r.value == Ok(0)
  {
    if now != ESTABLISHED then None else Some(Ok(0))
  }

  // ------------------------------------------------------------ send

  /** The states send refuses, as a table over every state: None lets the data through. */
  function SendRefusal(s: TcpState): (r: Option<Errno>)
  {
    match s
    case CLOSED => Some(ENOTCONN)
    case LISTEN => Some(EOPNOTSUPP)
    case SYN_RCVD => None
    case SYN_SENT => None
    case ESTABLISHED => None
    case FIN_WAIT_1 => Some(ENOTCONN)
    case FIN_WAIT_2 => Some(ENOTCONN)
    case CLOSE_WAIT => None
    case CLOSING => Some(ENOTCONN)
    case TIME_WAIT => Some(ENOTCONN)
    case LAST_ACK => Some(ENOTCONN)
  }

  /** The states in which accepted data wakes the TCP thread with app_send. */
  predicate SendNotifies(s: TcpState) {
    s in {ESTABLISHED, CLOSE_WAIT}
  }

  /**
   * CHITCPD_MSG_CODE__SEND. The length is checked before the descriptor.
   * The size_t length is passed to circular_buffer_write as a uint32_t, so
   * only its low 32 bits count. A blocking write that fills the buffer
   * before all the data is in makes the handler wait.
   */
  function Send(si: Server, sockfd: int, data: seq<byte>): (r: Outcome)
    requires Valid(si)
    ensures |data| == 0 ==> r == Done(CHITCP_OK, Fail(EINVAL), si)
    ensures |data| > 0 && !Open(si, sockfd) ==> r == Done(CHITCP_OK, Fail(EBADF), si)
    ensures |data| > 0 && Open(si, sockfd) && SendRefusal(si.table[sockfd].state).Some? ==>
      r == Done(CHITCP_OK, Fail(SendRefusal(si.table[sockfd].state).value), si)
    ensures |data| > 0 && Open(si, sockfd) && SendRefusal(si.table[sockfd].state).None? ==>
      r == SendWrite(si, sockfd, data)
  {
    if |data| == 0 then Done(CHITCP_OK, Fail(EINVAL), si)
    else if sockfd < 0 || sockfd >= |si.table| || si.table[sockfd].available then
      Done(CHITCP_OK, Fail(EBADF), si)
    else
      var e := si.table[sockfd];
      if e.state == CLOSED then Done(CHITCP_OK, Fail(ENOTCONN), si)
      else if e.state == LISTEN then Done(CHITCP_OK, Fail(EOPNOTSUPP), si)
      else if e.state != SYN_SENT && e.state != SYN_RCVD && e.state != ESTABLISHED && e.state != CLOSE_WAIT then
        Done(CHITCP_OK, Fail(ENOTCONN), si)
      else SendWrite(si, sockfd, data)
  }

  /**
   * The part of the send handler after the checks: the blocking write into
   * the send buffer, then app_send in the states that notify.
   */
  function SendWrite(si: Server, sockfd: nat, data: seq<byte>): (r: Outcome)
    requires Valid(si) && sockfd < |si.table|
    ensures r.Done? ==> r.rc == CHITCP_OK && (r.reply.ret < 0 || r.reply.errorCode == 0)
    ensures r.Done? && r.reply.ret < 0 ==> r.si == si && r.reply == Fail(EINVAL) && |data| % UINT32_MOD == 0
    ensures r.Done? && r.reply.ret >= 0 ==>
      |r.si.table| == |si.table| &&
      var e := si.table[sockfd];
      var e' := r.si.table[sockfd];
      && Valid(r.si)
      && r.reply.ret == (if e.sendBuf.closed then 0 else Min(|data| % UINT32_MOD, e.sendBuf.maxsize))
      && CircularBuffer.Contents(e'.sendBuf) == CircularBuffer.Contents(e.sendBuf) + data[..r.reply.ret]
      && (e'.flags.appSend <==> e.flags.appSend || SendNotifies(e.state))
      && e'.(sendBuf := e.sendBuf, flags := e.flags) == e
      && e'.flags.(appSend := e.flags.appSend) == e.flags
      && r.si.table == si.table[sockfd := e'] && r.si.portTable == si.portTable
    ensures r.Waits? ==>
      && Valid(r.si) && |r.si.table| == |si.table|
      && r.si.table == si.table[sockfd := si.table[sockfd].(sendBuf := r.si.table[sockfd].sendBuf)]
      && var b := si.table[sockfd].sendBuf;
        var b' := r.si.table[sockfd].sendBuf;
        && b'.count == b'.maxsize
        && exists k :: 0 <= k <= |data| && CircularBuffer.Contents(b') == CircularBuffer.Contents(b) + data[..k]
    ensures r.Done? || r.Waits?
  {
    var e := si.table[sockfd];
    var len := |data| % UINT32_MOD;
    match CircularBuffer.Write(e.sendBuf, data[..len], true)
    case WriteFailed(_) => Done(CHITCP_OK, Fail(EINVAL), si)
    case WroteThenBlocked(buf, written) =>
      assert data[..len][..written] == data[..written];
      PutValid(si, sockfd, e.(sendBuf := buf));
      Waits(Put(si, sockfd, e.(sendBuf := buf)))
    case Wrote(buf, n) =>
      assert data[..len][..n] == data[..n];
      var flags := if e.state == ESTABLISHED || e.state == CLOSE_WAIT then e.flags.(appSend := true) else e.flags;
      PutValid(si, sockfd, e.(sendBuf := buf, flags := flags));
      Done(CHITCP_OK, Ok(n), Put(si, sockfd, e.(sendBuf := buf, flags := flags)))
  }

  // ------------------------------------------------------------ recv

  /** What recv does before it touches the buffer. */
  datatype RecvVerdict = RecvRefused(err: Errno) | RecvEndOfStream | RecvReads

  /** The state table of recv: the socket kind matters only in LISTEN. */
  function RecvCheck(s: TcpState, kind: SocketType): RecvVerdict {
    match s
    case CLOSED => RecvRefused(ENOTCONN)
    case LISTEN => if kind == SOCKET_PASSIVE then RecvRefused(ENOTCONN) else RecvReads
    case SYN_RCVD => RecvReads
    case SYN_SENT => RecvReads
    case ESTABLISHED => RecvReads
    case FIN_WAIT_1 => RecvReads
    case FIN_WAIT_2 => RecvReads
    case CLOSE_WAIT => RecvReads
    case CLOSING => RecvEndOfStream
    case TIME_WAIT => RecvEndOfStream
    case LAST_ACK => RecvEndOfStream
  }

  /** The states in which a successful read wakes the TCP thread with app_recv. */
  predicate RecvNotifies(s: TcpState) {
    s in {ESTABLISHED, FIN_WAIT_1, FIN_WAIT_2}
  }

  /**
   * CHITCPD_MSG_CODE__RECV. An empty buffer makes the handler wait; a closed
   * and empty one reads 0 bytes, which the handler asserts can only happen
   * in a state past the peer's FIN, so in any reading state other than
   * CLOSE_WAIT it stops the daemon.
   */
  function Recv(si: Server, sockfd: int, len: nat): (r: Outcome)
    requires Valid(si)
    ensures len == 0 ==> r == Done(CHITCP_OK, Fail(EINVAL), si)
    ensures len > 0 && !Open(si, sockfd) ==> r == Done(CHITCP_OK, Fail(EBADF), si)
    ensures len > 0 && Open(si, sockfd) ==> match RecvCheck(si.table[sockfd].state, si.table[sockfd].actpas)
      case RecvRefused(err) => r == Done(CHITCP_OK, Fail(err), si)
      case RecvEndOfStream => r == Done(CHITCP_OK, Ok(0), si)
      case RecvReads => r == RecvRead(si, sockfd, len)
    ensures !r.Undefined?
  {
    if len == 0 then Done(CHITCP_OK, Fail(EINVAL), si)
    else if sockfd < 0 || sockfd >= |si.table| || si.table[sockfd].available then
      Done(CHITCP_OK, Fail(EBADF), si)
    else
      var e := si.table[sockfd];
      if e.state == CLOSED then Done(CHITCP_OK, Fail(ENOTCONN), si)
      else if e.state == LISTEN && e.actpas == SOCKET_PASSIVE then Done(CHITCP_OK, Fail(ENOTCONN), si)
      else if e.state == LAST_ACK || e.state == TIME_WAIT || e.state == CLOSING then Done(CHITCP_OK, Ok(0), si)
      else RecvRead(si, sockfd, len)
  }

  /**
   * The part of the recv handler after the checks: the blocking read from
   * the receive buffer, then app_recv in the states that notify.
   */
  function RecvRead(si: Server, sockfd: nat, len: nat): (r: Outcome)
    requires Valid(si) && sockfd < |si.table| && len > 0
    ensures r == Done(CHITCP_OK, Fail(EINVAL), si) <==> len % UINT32_MOD == 0
    ensures r.Waits? <==>
      len % UINT32_MOD != 0 && CircularBuffer.Contents(si.table[sockfd].recvBuf) == [] && !si.table[sockfd].recvBuf.closed
    ensures r.Waits? ==> r.si == si
    ensures r.Aborted? <==>
      && len % UINT32_MOD != 0 && CircularBuffer.Contents(si.table[sockfd].recvBuf) == []
      && si.table[sockfd].recvBuf.closed && si.table[sockfd].state !in {CLOSING, TIME_WAIT, CLOSE_WAIT, LAST_ACK, CLOSED}
    ensures (&& len % UINT32_MOD != 0 && CircularBuffer.Contents(si.table[sockfd].recvBuf) == []
             && si.table[sockfd].recvBuf.closed
             && si.table[sockfd].state in {CLOSING, TIME_WAIT, CLOSE_WAIT, LAST_ACK, CLOSED})
      ==> r == Done(CHITCP_OK, Ok(0), si)
    ensures len % UINT32_MOD != 0 && CircularBuffer.Contents(si.table[sockfd].recvBuf) != [] ==> r.Done? && r.reply.ret > 0
    ensures r.Done? && r.reply.ret > 0 ==>
      |r.si.table| == |si.table| &&
      var e := si.table[sockfd];
      var e' := r.si.table[sockfd];
      && Valid(r.si) && r.rc == CHITCP_OK && r.reply.errorCode == 0
      && r.reply.ret == |r.reply.payload| == Min(len % UINT32_MOD, |CircularBuffer.Contents(e.recvBuf)|)
      && CircularBuffer.Contents(e.recvBuf) == r.reply.payload + CircularBuffer.Contents(e'.recvBuf)
      && (e'.flags.appRecv <==> e.flags.appRecv || RecvNotifies(e.state))
      && e'.(recvBuf := e.recvBuf, flags := e.flags) == e
      && e'.flags.(appRecv := e.flags.appRecv) == e.flags
      && r.si.table == si.table[sockfd := e'] && r.si.portTable == si.portTable
    ensures r.Done? && r.reply.ret <= 0 ==> r.si == si && r.rc == CHITCP_OK
    ensures !r.Undefined?
  {
    var e := si.table[sockfd];
    match CircularBuffer.Read(e.recvBuf, len % UINT32_MOD, true)
    case ReadFailed(_) => Done(CHITCP_OK, Fail(EINVAL), si)
    case ReadWaits => Waits(si)
    case ReadDone(buf, bytes, n) =>
      if n == 0 then
        if e.state in {CLOSING, TIME_WAIT, CLOSE_WAIT, LAST_ACK, CLOSED} then Done(CHITCP_OK, Ok(0), si)
        else Aborted
      else
        assert CircularBuffer.Contents(e.recvBuf) == bytes + CircularBuffer.Contents(buf) by {
          assert CircularBuffer.Contents(e.recvBuf)[..n] == bytes;
        }
        var flags := if RecvNotifies(e.state) then e.flags.(appRecv := true) else e.flags;
        PutValid(si, sockfd, e.(recvBuf := buf, flags := flags));
        Done(CHITCP_OK, Reply(n, 0, bytes), Put(si, sockfd, e.(recvBuf := buf, flags := flags)))
  }

  // ------------------------------------------------------------ close

  /** What close does with a socket in each state. */
  datatype CloseVerdict =
    | CloseRefused(err: Errno)
      /** A passive socket has no TCP thread and is released at once. */
    | CloseReleases
      /** app_close is raised and the handler waits for the TCP thread. */
    | CloseSignals
      /** app_close is raised, then the state check fails with EBADF. */
    | CloseSignalsThenRefuses

  function CloseCheck(s: TcpState, kind: SocketType): CloseVerdict {
    match s
    case CLOSED => CloseRefused(ENOTCONN)
    case LISTEN =>
      if kind == SOCKET_PASSIVE then CloseReleases
      else if kind == SOCKET_ACTIVE then CloseRefused(EOPNOTSUPP)
      else CloseSignalsThenRefuses
    case SYN_RCVD => CloseRefused(EOPNOTSUPP)
    case SYN_SENT => CloseRefused(EOPNOTSUPP)
    case ESTABLISHED => CloseSignals
    case FIN_WAIT_1 => CloseRefused(ENOTCONN)
    case FIN_WAIT_2 => CloseRefused(ENOTCONN)
    case CLOSE_WAIT => CloseSignals
    case CLOSING => CloseRefused(ENOTCONN)
    case TIME_WAIT => CloseRefused(ENOTCONN)
    case LAST_ACK => CloseRefused(ENOTCONN)
  }

  /**
   * The close handler read off the state table: EBADF for a descriptor not
   * in use, otherwise what CloseCheck says, where raising app_close sets that
   * one flag of the socket.
   */
  function CloseByTable(si: Server, sockfd: int): (r: Outcome)
    requires Valid(si)
  {
    if !Open(si, sockfd) then Done(CHITCP_OK, Fail(EBADF), si)
    else
      var e := si.table[sockfd];
      var raised := Put(si, sockfd, e.(flags := e.flags.(appClose := true)));
      match CloseCheck(e.state, e.actpas)
      case CloseRefused(err) => Done(CHITCP_OK, Fail(err), si)
      case CloseReleases => Done(CHITCP_OK, Ok(0), FreeSocketEntry(si, sockfd))
      case CloseSignals => Waits(raised)
      case CloseSignalsThenRefuses => Done(CHITCP_OK, Fail(EBADF), raised)
  }

  /**
   * CHITCPD_MSG_CODE__CLOSE. A passive LISTEN socket is released through
   * chitcpd_free_socket_entry, taken here with the corrected port guard.
   * Only ESTABLISHED and CLOSE_WAIT raise app_close and wait; a LISTEN
   * socket that is neither passive nor active also raises it and then fails
   * the state check.
   */
  function Close(si: Server, sockfd: int): (r: Outcome)
    requires Valid(si)
    ensures r == CloseByTable(si, sockfd)
    ensures r.Done? || r.Waits?
  {
    if sockfd < 0 || sockfd >= |si.table| || si.table[sockfd].available then
      Done(CHITCP_OK, Fail(EBADF), si)
    else
      var e := si.table[sockfd];
      if e.state == CLOSED then Done(CHITCP_OK, Fail(ENOTCONN), si)
      else if e.state == LISTEN && e.actpas == SOCKET_PASSIVE then
        Done(CHITCP_OK, Ok(0), FreeSocketEntry(si, sockfd))
      else if e.state == LISTEN && e.actpas == SOCKET_ACTIVE then Done(CHITCP_OK, Fail(EOPNOTSUPP), si)
      else if e.state == SYN_SENT then Done(CHITCP_OK, Fail(EOPNOTSUPP), si)
      else if e.state == SYN_RCVD then Done(CHITCP_OK, Fail(EOPNOTSUPP), si)
      else if e.state in {FIN_WAIT_1, FIN_WAIT_2, CLOSING, LAST_ACK, TIME_WAIT} then
        assert CloseCheck(e.state, e.actpas) == CloseRefused(ENOTCONN);
        Done(CHITCP_OK, Fail(ENOTCONN), si)
      else
        var si' := Put(si, sockfd, e.(flags := e.flags.(appClose := true)));
        if !(e.state == CLOSE_WAIT || e.state == ESTABLISHED) then
          assert CloseCheck(e.state, e.actpas) == CloseSignalsThenRefuses;
          Done(CHITCP_OK, Fail(EBADF), si')
        else
          assert CloseCheck(e.state, e.actpas) == CloseSignals;
          Waits(si')
  }

  /**
   * The close handler's wait, begun in `start`, ends once the socket is in
   * one of the states that follow the FIN for that start; it then answers 0,
   * so the EBADF branch after the wait is never reached.
   */
  function CloseWaitOver(start: TcpState, now: TcpState): (r: Option<Reply>)
    requires start == ESTABLISHED || start == CLOSE_WAIT
    ensures start == ESTABLISHED ==> (r.Some? <==> now in {FIN_WAIT_2, CLOSING, TIME_WAIT, CLOSED})
    ensures start == CLOSE_WAIT ==> (r.Some? <==> now in {LAST_ACK, CLOSED})
    ensures r.Some? ==> r.value == Ok(0)
  {
    var waiting := if start == ESTABLISHED then !(now == FIN_WAIT_2 || now == CLOSING || now == TIME_WAIT || now == CLOSED)
                   else !(now == LAST_ACK || now == CLOSED);
    if waiting then None
    else if now == CLOSED then Some(Ok(0))
    else if now == FIN_WAIT_2 || now == CLOSING || now == TIME_WAIT || now == LAST_ACK then Some(Ok(0))
    else Some(Fail(EBADF))
  }

  /** A socket put in LISTEN is released by close, which answers 0. */
  lemma ListenThenClose(si: Server, sockfd: nat, backlog: int)
    requires Valid(si) && Open(si, sockfd) && si.table[sockfd].state == CLOSED
    ensures var si' := Listen(si, sockfd, backlog).si;
      Valid(si') && Close(si', sockfd) == Done(CHITCP_OK, Ok(0), FreeSocketEntry(si', sockfd))
      && FreeSocketEntry(si', sockfd).table[sockfd].available
  {
  }

  // ------------------------------------------------------------ wait for state

  /** The socket check of wait-for-state, which also demands an active socket. */
  predicate OpenActive(si: Server, sockfd: int) {
    Open(si, sockfd) && si.table[sockfd].actpas == SOCKET_ACTIVE
  }

  /** The rest of the wait-for-state handler, once the slot has been found in range. */
  function WaitForStateChecked(si: Server, sockfd: int, tcpState: int): (r: Outcome)
    requires 0 <= sockfd < |si.table|
    ensures si.table[sockfd].available && tcpState == 0 ==> r == Done(CHITCP_OK, Ok(0), si)
    ensures !(si.table[sockfd].available && tcpState == 0) && !OpenActive(si, sockfd) ==>
      r == Done(CHITCP_OK, Fail(EBADF), si)
    ensures OpenActive(si, sockfd) && StateOfIndex(tcpState).None? ==> r == Done(CHITCP_OK, Fail(EINVAL), si)
    ensures OpenActive(si, sockfd) && StateOfIndex(tcpState).Some? ==>
      (r == Done(CHITCP_OK, Ok(0), si) <==> si.table[sockfd].state == StateOfIndex(tcpState).value)
    ensures r.Done? || r == Waits(si)
  {
    if si.table[sockfd].available && tcpState == 0 then Done(CHITCP_OK, Ok(0), si)
    else if si.table[sockfd].available || si.table[sockfd].actpas != SOCKET_ACTIVE then
      Done(CHITCP_OK, Fail(EBADF), si)
    else if StateOfIndex(tcpState).None? then Done(CHITCP_OK, Fail(EINVAL), si)
    else if si.table[sockfd].state == StateOfIndex(tcpState).value then Done(CHITCP_OK, Ok(0), si)
    else Waits(si)
  }

  /**
   * CHITCPD_MSG_CODE__WAIT_FOR_STATE as written: the slot is read for the
   * "already freed and waiting for CLOSED" shortcut before the descriptor
   * is checked against the table size.
   */
  function WaitForStateAsWritten(si: Server, sockfd: int, tcpState: int): (r: Outcome)
    ensures r.Undefined? <==> !(0 <= sockfd < |si.table|)
    ensures 0 <= sockfd < |si.table| ==> r == WaitForStateChecked(si, sockfd, tcpState)
  {
    if !(0 <= sockfd < |si.table|) then Undefined
    else WaitForStateChecked(si, sockfd, tcpState)
  }

  /** The wait-for-state handler with the range check first, as in every other handler. */
  function WaitForState(si: Server, sockfd: int, tcpState: int): (r: Outcome)
    ensures !(0 <= sockfd < |si.table|) ==> r == Done(CHITCP_OK, Fail(EBADF), si)
    ensures 0 <= sockfd < |si.table| ==> r == WaitForStateChecked(si, sockfd, tcpState)
    ensures !r.Undefined? && !r.Aborted?
  {
    if !(0 <= sockfd < |si.table|) then Done(CHITCP_OK, Fail(EBADF), si)
    else WaitForStateChecked(si, sockfd, tcpState)
  }

  /**
   * The two agree on every descriptor in range; on one past the table the
   * written handler reads outside it, where the corrected one answers EBADF.
   */
  lemma WaitForStateOutOfRange(si: Server, tcpState: int)
    ensures WaitForStateAsWritten(si, |si.table|, tcpState).Undefined?
    ensures WaitForState(si, |si.table|, tcpState) == Done(CHITCP_OK, Fail(EBADF), si)
    ensures forall fd :: 0 <= fd < |si.table| ==> WaitForStateAsWritten(si, fd, tcpState) == WaitForState(si, fd, tcpState)
  {
  }
}
