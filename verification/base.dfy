/**
 * Basic vocabulary shared by every part of the chiTCP model: the fixed-width
 * integer types of <stdint.h>, the internal return codes, the errno values the
 * daemon reports to applications, the socket kinds and the eleven TCP states.
 */
module Base {

  /** uint8_t, uint16_t and uint32_t as ranges of the unbounded integers. */
  type byte = x: int | 0 <= x < 0x100
  type uint16 = x: int | 0 <= x < 0x1_0000
  type uint32 = x: int | 0 <= x < 0x1_0000_0000

  const UINT16_MOD: int := 0x1_0000
  const UINT32_MOD: int := 0x1_0000_0000
  /** INT_MAX for the 32-bit `int` that most chiTCP functions return. */
  const INT32_MAX: int := 0x7FFF_FFFF

  function Min(a: int, b: int): int {
    if a < b then a else b
  }

  /** The conversion of an arbitrary integer to uint16_t (C keeps the low 16 bits). */
  function ToUint16(x: int): (r: uint16)
    ensures (r - x) % UINT16_MOD == 0
  {
    x % UINT16_MOD
  }

  /** Addition of two uint32_t values, which wraps around modulo 2^32. */
  function Add32(a: uint32, n: int): (r: uint32)
    ensures (r - a - n) % UINT32_MOD == 0
  {
    (a + n) % UINT32_MOD
  }

  /** Subtraction of two uint32_t values, which wraps around modulo 2^32. */
  function Sub32(a: uint32, b: uint32): (r: uint32)
    ensures a >= b ==> r == a - b
    ensures a < b ==> r == a - b + UINT32_MOD
  {
    (a - b) % UINT32_MOD
  }

  /** The conversion of a uint32_t to int on a two's-complement machine. */
  function ToInt32(x: uint32): (r: int)
    ensures -0x8000_0000 <= r < 0x8000_0000
    ensures (r - x) % UINT32_MOD == 0
    ensures r == 0 <==> x == 0
  {
    if x < 0x8000_0000 then x else x - UINT32_MOD
  }

  datatype Option<T> = None | Some(value: T)

  /** chitcp_retcode_t: the return codes of the library's internal functions. */
  const CHITCP_OK: int := 0
  const CHITCP_ENOMEM: int := -1
  const CHITCP_ESOCKET: int := -2
  const CHITCP_ETHREAD: int := -3
  const CHITCP_ESYNC: int := -4
  const CHITCP_EINIT: int := -5
  const CHITCP_EWOULDBLOCK: int := -6
  const CHITCP_EINVAL: int := -7
  const CHITCP_ENOENT: int := -8

  /** The errno values the daemon's request handlers place in error_code. */
  datatype Errno = EBADF | EINVAL | ENOTCONN | EOPNOTSUPP | EAGAIN | EALREADY | ENOMEM
  {
    /** The value of each constant on Linux. */
    function Code(): int {
      match this
      case EBADF => 9
      case EAGAIN => 11
      case ENOMEM => 12
      case EINVAL => 22
      case EOPNOTSUPP => 95
      case ENOTCONN => 107
      case EALREADY => 114
    }
  }

  /**
   * socket_type_t. The zero value that memset leaves in a freed entry is not
   * one of the three named kinds, so it gets a constructor of its own.
   */
  datatype SocketType = SOCKET_ACTIVE | SOCKET_PASSIVE | SOCKET_UNINITIALIZED | SOCKET_ZEROED

  /** tcp_state_t, in declaration order. */
  datatype TcpState =
    | CLOSED | LISTEN | SYN_RCVD | SYN_SENT | ESTABLISHED
    | FIN_WAIT_1 | FIN_WAIT_2 | CLOSE_WAIT | CLOSING | TIME_WAIT | LAST_ACK

  /** The integer value of each enumerator (CLOSED is 0, LAST_ACK is 10). */
  function StateIndex(s: TcpState): (r: nat)
    ensures r <= 10
  {
    match s
    case CLOSED => 0
    case LISTEN => 1
    case SYN_RCVD => 2
    case SYN_SENT => 3
    case ESTABLISHED => 4
    case FIN_WAIT_1 => 5
    case FIN_WAIT_2 => 6
    case CLOSE_WAIT => 7
    case CLOSING => 8
    case TIME_WAIT => 9
    case LAST_ACK => 10
  }

  /** IS_VALID_TCP_STATE together with the cast from int back to tcp_state_t. */
  function StateOfIndex(x: int): (r: Option<TcpState>)
    ensures r.Some? <==> 0 <= x <= 10
    ensures r.Some? ==> StateIndex(r.value) == x
  {
    if x == 0 then Some(CLOSED)
    else if x == 1 then Some(LISTEN)
    else if x == 2 then Some(SYN_RCVD)
    else if x == 3 then Some(SYN_SENT)
    else if x == 4 then Some(ESTABLISHED)
    else if x == 5 then Some(FIN_WAIT_1)
    else if x == 6 then Some(FIN_WAIT_2)
    else if x == 7 then Some(CLOSE_WAIT)
    else if x == 8 then Some(CLOSING)
    else if x == 9 then Some(TIME_WAIT)
    else if x == 10 then Some(LAST_ACK)
    else None
  }

  /** The enumerators have distinct values, and StateOfIndex undoes StateIndex. */
  lemma StateIndexRoundTrip(s: TcpState, t: TcpState)
    ensures StateOfIndex(StateIndex(s)) == Some(s)
    ensures StateIndex(s) == StateIndex(t) ==> s == t
  {
  }
}
