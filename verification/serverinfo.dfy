/**
 * The daemon's socket table and port table (src/chitcpd/serverinfo.h,
 * src/chitcpd/serverinfo.c).
 *
 * The socket table is a sequence of entries indexed by chisocket descriptor.
 * The port table maps every local port to the entry that holds it (a pointer
 * in C, an index here). The locks that guard both tables are not modelled.
 */
module ServerInfo {
  import opened Base
  import opened Addr
  import CircularBuffer

  /** DEFAULT_MAX_PORTS: chitcpd_server_init sizes the port table to cover every uint16 port. */
  const PORT_TABLE_SIZE: nat := 65536
  const DEFAULT_MAX_SOCKETS: nat := 1024
  const DEFAULT_EPHEMERAL_PORT_START: uint16 := 49152

  /** The eight event bits of an active socket, app_connect being the lowest bit. */
  datatype Flags = Flags(
    appConnect: bool, appSend: bool, appRecv: bool, netRecv: bool,
    appClose: bool, timeoutRtx: bool, timeoutPst: bool, cleanup: bool)
  {
    /** The `raw` view of the bit-field union. */
    function Raw(): (r: byte)
      ensures r == 0 <==> this == NoFlags
    {
      (if appConnect then 1 else 0) + (if appSend then 2 else 0)
      + (if appRecv then 4 else 0) + (if netRecv then 8 else 0)
      + (if appClose then 16 else 0) + (if timeoutRtx then 32 else 0)
      + (if timeoutPst then 64 else 0) + (if cleanup then 128 else 0)
    }
  }

  const NoFlags: Flags := Flags(false, false, false, false, false, false, false, false)

  /**
   * A chisocketentry_t. The union of active and passive state is flattened:
   * `flags`, the buffers and the pending-packet count belong to active sockets,
   * `backlog` and the pending-connection count to passive ones.
   */
  datatype Entry = Entry(
    available: bool,
    actpas: SocketType,
    state: TcpState,
    local: SockAddr,
    remote: SockAddr,
    domain: int,
    sockType: int,
    protocol: int,
    flags: Flags,
    backlog: int,
    pendingConnections: nat,
    withheldPackets: nat,
    sendBuf: CircularBuffer.Buffer,
    recvBuf: CircularBuffer.Buffer,
    pendingPackets: nat)

  const ZeroBuffer: CircularBuffer.Buffer := CircularBuffer.Buffer([], 0, 0, 0, 0, 0, 0, 0, false)

  /** An entry after memset to zero and `available = TRUE`: what server init and free leave. */
  const FreeEntry: Entry :=
    Entry(true, SOCKET_ZEROED, CLOSED, ZeroAddr, ZeroAddr, 0, 0, 0, NoFlags, 0, 0, 0,
          ZeroBuffer, ZeroBuffer, 0)

  datatype Server = Server(
    table: seq<Entry>,
    portTable: seq<Option<nat>>,
    ephemeralStart: uint16)

  /** The shape the daemon keeps: a uint16-sized socket table, a full port table, valid buffers. */
  predicate Valid(si: Server) {
    && |si.table| < 0x1_0000
    && |si.portTable| == PORT_TABLE_SIZE
    && (forall p :: 0 <= p < |si.portTable| && si.portTable[p].Some? ==> si.portTable[p].value < |si.table|)
    && (forall i :: 0 <= i < |si.table| ==>
          CircularBuffer.Valid(si.table[i].sendBuf) && CircularBuffer.Valid(si.table[i].recvBuf))
  }

  lemma FreeEntryValid()
    ensures CircularBuffer.Valid(FreeEntry.sendBuf) && CircularBuffer.Valid(FreeEntry.recvBuf)
    ensures FreeEntry.available && FreeEntry.flags.Raw() == 0
  {
  }

  // ------------------------------------------------------------ allocation

  /** The lowest available slot, the reference for chitcpd_allocate_socket. */
  function LowestAvailable(t: seq<Entry>, from: nat): (r: Option<nat>)
    requires from <= |t|
    ensures r.Some? ==> (from <= r.value < |t| && t[r.value].available
      && forall j :: from <= j < r.value ==> !t[j].available)
    ensures r.None? ==> forall j :: from <= j < |t| ==> !t[j].available
    decreases |t| - from
  {
    if from == |t| then None
    else if t[from].available then Some(from)
    else LowestAvailable(t, from + 1)
  }

  /** What chitcpd_allocate_socket sets in the slot it claims. */
  function Claim(e: Entry): Entry {
    e.(available := false, actpas := SOCKET_UNINITIALIZED, state := CLOSED, withheldPackets := 0)
  }

  /**
   * chitcpd_allocate_socket: claims the lowest-index available slot, or
   * returns CHITCP_ESOCKET and leaves the table alone.
   */
  method AllocateSocket(si: Server) returns (ret: int, index: int, si': Server)
    requires Valid(si)
    ensures Valid(si') && si'.portTable == si.portTable
    ensures ret == CHITCP_ESOCKET <==> LowestAvailable(si.table, 0).None?
    ensures ret == CHITCP_ESOCKET ==> si' == si
    ensures ret != CHITCP_ESOCKET ==>
      && ret == CHITCP_OK
      && LowestAvailable(si.table, 0) == Some(index)
      && si'.table == si.table[index := Claim(si.table[index])]
  {
    var i := 0;
    while i < |si.table|
      invariant 0 <= i <= |si.table|
      invariant forall j :: 0 <= j < i ==> !si.table[j].available
    {
      if si.table[i].available {
        si' := si.(table := si.table[i := Claim(si.table[i])]);
        return CHITCP_OK, i, si';
      }
      i := i + 1;
    }
    return CHITCP_ESOCKET, -1, si;
  }

  /** A claimed slot is in use, in state CLOSED, with no socket kind yet; no other slot changes. */
  lemma AllocatedSlot(si: Server, index: nat)
    requires index < |si.table|
    ensures var t := si.table[index := Claim(si.table[index])];
      && !t[index].available && t[index].state == CLOSED && t[index].actpas == SOCKET_UNINITIALIZED
      && forall j :: 0 <= j < |t| && j != index ==> t[j] == si.table[j]
  {
  }

  // ------------------------------------------------------------ release

  /** The port-table index chitcpd_free_socket_entry computes: ntohs of the stored local port. */
  function LocalPortIndex(e: Entry): uint16 {
    ByteOrder.Swap16(GetAddrPort(e.local))
  }

  /**
   * chitcpd_free_socket_entry as written. The guard `port >= 0` on a uint16_t
   * is always true, so the port slot is cleared even when the local address
   * has no port; get_addr_port then reports 0xFFFF, and port 65535 is cleared
   * on behalf of whichever socket holds it.
   */
  function FreeSocketEntryAsWritten(si: Server, idx: nat): (r: Server)
    requires Valid(si) && idx < |si.table|
    ensures Valid(r) && r.table == si.table[idx := FreeEntry]
    ensures r.portTable == si.portTable[LocalPortIndex(si.table[idx]) := None]
  {
    var port := LocalPortIndex(si.table[idx]);
    si.(table := si.table[idx := FreeEntry], portTable := si.portTable[port := None])
  }

  /**
   * chitcpd_free_socket_entry with the guard the code evidently means: the
   * port slot is released only when the local address is an IPv4 or IPv6
   * address, that is, when the socket has a local port at all.
   */
  function FreeSocketEntry(si: Server, idx: nat): (r: Server)
    requires Valid(si) && idx < |si.table|
    ensures Valid(r) && |r.table| == |si.table| && r.table[idx] == FreeEntry
    ensures forall j :: 0 <= j < |si.table| && j != idx ==> r.table[j] == si.table[j]
    ensures si.table[idx].local.IsInet() ==> r.portTable[HostPort(si.table[idx].local)].None?
    ensures var e := si.table[idx];
      forall p :: 0 <= p < PORT_TABLE_SIZE && !(e.local.IsInet() && p == HostPort(e.local)) ==> r.portTable[p] == si.portTable[p]
  {
    var e := si.table[idx];
    var pt := if e.local.IsInet() then si.portTable[LocalPortIndex(e) := None] else si.portTable;
    si.(table := si.table[idx := FreeEntry], portTable := pt)
  }

  /** The two agree on every socket that has an IPv4 or IPv6 local address. */
  lemma FreeAgreesOnInet(si: Server, idx: nat)
    requires Valid(si) && idx < |si.table| && si.table[idx].local.IsInet()
    ensures FreeSocketEntryAsWritten(si, idx) == FreeSocketEntry(si, idx)
  {
  }

  /**
   * A socket that never received a local address (listen() without bind())
   * releases, as written, the port-table slot of port 65535 even though
   * another socket holds it. The corrected version leaves the slot alone.
   */
  lemma FreeUnboundClearsPort65535(si: Server, holder: nat, idx: nat)
    requires Valid(si) && holder < |si.table| && idx < |si.table| && holder != idx
    requires si.portTable[65535] == Some(holder)
    requires si.table[idx].local == ZeroAddr
    ensures FreeSocketEntryAsWritten(si, idx).portTable[65535].None?
    ensures FreeSocketEntryAsWritten(si, idx).table[holder] == si.table[holder]
    ensures FreeSocketEntry(si, idx).portTable[65535] == Some(holder)
  {
  }

  /** Freeing a slot makes it the one the next allocation claims, if no lower slot is free. */
  lemma FreeThenAllocate(si: Server, idx: nat)
    requires Valid(si) && idx < |si.table|
    requires forall j :: 0 <= j < idx ==> !si.table[j].available
    ensures LowestAvailable(FreeSocketEntry(si, idx).table, 0) == Some(idx)
  {
    var t := FreeSocketEntry(si, idx).table;
    assert t[idx].available;
    assert forall j :: 0 <= j < idx ==> !t[j].available;
  }

  // ------------------------------------------------------------ ephemeral ports

  /** The reference: the lowest free port slot in [from, PORT_TABLE_SIZE). */
  function FirstFreePort(pt: seq<Option<nat>>, from: nat): (r: Option<nat>)
    requires from <= |pt|
    ensures r.Some? ==> (from <= r.value < |pt| && pt[r.value].None?
      && forall j :: from <= j < r.value ==> pt[j].Some?)
    ensures r.None? ==> forall j :: from <= j < |pt| ==> pt[j].Some?
    decreases |pt| - from
  {
    if from == |pt| then None
    else if pt[from].None? then Some(from)
    else FirstFreePort(pt, from + 1)
  }

  /**
   * chitcpd_find_ephemeral_port as the header documents it: the lowest free
   * port from ephemeral_port_start on, or -1 when there is none.
   */
  method FindEphemeralPort(si: Server) returns (port: int)
    requires Valid(si)
    ensures port == -1 <==> FirstFreePort(si.portTable, si.ephemeralStart).None?
    ensures port != -1 ==> FirstFreePort(si.portTable, si.ephemeralStart) == Some(port)
    ensures port != -1 ==> si.ephemeralStart <= port < PORT_TABLE_SIZE && si.portTable[port].None?
  {
    port := -1;
    var i := si.ephemeralStart as int;
    while i < |si.portTable|
      invariant si.ephemeralStart <= i <= |si.portTable|
      invariant forall j :: si.ephemeralStart <= j < i ==> si.portTable[j].Some?
      invariant FirstFreePort(si.portTable, si.ephemeralStart) == FirstFreePort(si.portTable, i)
    {
      if si.portTable[i].None? {
        return i;
      }
      i := i + 1;
    }
  }

  /**
   * chitcpd_find_ephemeral_port as written: the result variable is a uint16_t
   * initialised to -1, so "no free port" comes back as 65535, the same value
   * as "port 65535 is free".
   */
  method FindEphemeralPortAsWritten(si: Server) returns (port: int)
    requires Valid(si)
    ensures port == ToUint16(if FirstFreePort(si.portTable, si.ephemeralStart).None? then -1
                             else FirstFreePort(si.portTable, si.ephemeralStart).value)
    ensures port != -1
  {
    var p := FindEphemeralPort(si);
    port := ToUint16(p);
  }

  /** With every ephemeral port taken, the written search reports port 65535, which is taken. */
  lemma EphemeralExhaustedReports65535(si: Server)
    requires Valid(si) && FirstFreePort(si.portTable, si.ephemeralStart).None?
    ensures ToUint16(-1) == 65535 && si.portTable[65535].Some?
  {
  }

  // ------------------------------------------------------------ lookup

  /** One side of the address match: None when it fails, else the number of wildcards used. */
  function SideWildcards(query: SockAddr, mine: SockAddr, alsoPort: bool): (r: Option<nat>)
    requires query.IsInet() && mine.IsInet()
    ensures r.Some? ==> r.value <= 1
  {
    if IsAny(mine) then Some(if !IsAny(query) then 1 else 0)
    else if IsAny(query) then Some(1)
    else if AddrCmp(query, mine) != 0 || (alsoPort && AddrPortCmp(query, mine) != 0) then None
    else Some(0)
  }

  /**
   * The body of the loop in chitcpd_lookup_socket for one entry: None when the
   * entry is skipped, otherwise the number of wildcards it needs.
   */
  function Wildcards(e: Entry, local: SockAddr, remote: SockAddr): (r: Option<nat>)
    requires local.IsInet() && remote.IsInet()
    ensures r.Some? ==> r.value <= 2
  {
    if e.available then None
    else if local.Family() != e.local.Family() then None
    else if remote.Family() != e.remote.Family() then None
    else if AddrPortCmp(local, e.local) != 0 then None
    else
      var lw := SideWildcards(local, e.local, false);
      var rw := SideWildcards(remote, e.remote, true);
      if lw.None? || rw.None? then None else Some(lw.value + rw.value)
  }

  /**
   * The matching rule in plain terms: an entry in use matches when the
   * families agree, the local ports agree, and each address either equals the
   * query's (the remote one together with its port) or is a wildcard on one
   * side. Each side where exactly one of the two addresses is the wildcard
   * costs one.
   */
  lemma WildcardsMeaning(e: Entry, local: SockAddr, remote: SockAddr)
    requires local.IsInet() && remote.IsInet()
    ensures Wildcards(e, local, remote).Some? <==>
      && !e.available
      && e.local.Family() == local.Family() && e.remote.Family() == remote.Family()
      && e.local.port == local.port
      && (IsAny(e.local) || IsAny(local) || e.local.Ip() == local.Ip())
      && (IsAny(e.remote) || IsAny(remote) || (e.remote.Ip() == remote.Ip() && e.remote.port == remote.port))
    ensures Wildcards(e, local, remote).Some? ==>
      Wildcards(e, local, remote).value
        == (if IsAny(e.local) != IsAny(local) then 1 else 0)
         + (if IsAny(e.remote) != IsAny(remote) then 1 else 0)
  {
  }

  /** A candidate under the exact_match_only rule. */
  predicate Eligible(e: Entry, local: SockAddr, remote: SockAddr, exact: bool)
    requires local.IsInet() && remote.IsInet()
  {
    Wildcards(e, local, remote).Some? && (!exact || Wildcards(e, local, remote).value == 0)
  }

  /** The wildcards an eligible entry needs, and 3 (the initial bound) for any other. */
  function Cost(e: Entry, local: SockAddr, remote: SockAddr, exact: bool): (r: nat)
    requires local.IsInet() && remote.IsInet()
    ensures r < 3 <==> Eligible(e, local, remote, exact)
    ensures r < 3 ==> r == Wildcards(e, local, remote).value
  {
    if Eligible(e, local, remote, exact) then Wildcards(e, local, remote).value else 3
  }

  /**
   * chitcpd_lookup_socket, after in_pcblookup: among the entries that match,
   * the one needing the fewest wildcards, the lowest index among equals; a
   * zero-wildcard match ends the search at once. The C code asserts both
   * query addresses are IPv4 or IPv6 of the same family.
   */
  method LookupSocket(si: Server, local: SockAddr, remote: SockAddr, exact: bool) returns (r: Option<nat>)
    requires local.IsInet() && remote.IsInet() && local.Family() == remote.Family()
    ensures r.Some? ==> r.value < |si.table| && Eligible(si.table[r.value], local, remote, exact)
    ensures r.Some? ==> forall j :: 0 <= j < r.value ==>
      Cost(si.table[j], local, remote, exact) > Cost(si.table[r.value], local, remote, exact)
    ensures r.Some? ==> forall j :: r.value < j < |si.table| ==>
      Cost(si.table[j], local, remote, exact) >= Cost(si.table[r.value], local, remote, exact)
    ensures r.None? <==> forall j :: 0 <= j < |si.table| ==> !Eligible(si.table[j], local, remote, exact)
  {
    r := ScanTable(si.table, local, remote, exact);
    if r.None? {
      NoneFromCosts(si.table, local, remote, exact);
    } else {
      BestFromCosts(si.table, local, remote, exact, r.value);
    }
  }

  /** The loop of chitcpd_lookup_socket, with its result stated over the costs of the entries. */
  method ScanTable(t: seq<Entry>, local: SockAddr, remote: SockAddr, exact: bool) returns (r: Option<nat>)
    requires local.IsInet() && remote.IsInet()
    ensures r.Some? ==> r.value < |t| && Costs(t, local, remote, exact)[r.value] < 3
    ensures r.Some? ==> forall j :: 0 <= j < r.value ==>
      Costs(t, local, remote, exact)[j] > Costs(t, local, remote, exact)[r.value]
    ensures r.Some? ==> forall j :: r.value < j < |t| ==>
      Costs(t, local, remote, exact)[j] >= Costs(t, local, remote, exact)[r.value]
    ensures r.None? ==> forall j :: 0 <= j < |t| ==> Costs(t, local, remote, exact)[j] >= 3
  {
    var maxWildcards := 3;
    r := None;
    ghost var cost := Costs(t, local, remote, exact);
    var i := 0;
    while i < |t|
      invariant |cost| == |t| && ScanInv(cost, i, r, maxWildcards)
    {
      CostsAt(t, local, remote, exact, i);
      var take, w := TryEntry(t[i], local, remote, exact, maxWildcards);
      ScanStep(cost, i, r, maxWildcards);
      if take {
        r := Some(i);
        maxWildcards := w;
        if w == 0 {
          ScanDone(cost, i + 1, r, maxWildcards);
          return;
        }
      }
      i := i + 1;
    }
    ScanDone(cost, i, r, maxWildcards);
  }

  /**
   * What the lookup loop knows after the first i entries: the best so far
   * has cost m, every earlier entry costs at least m, and every entry before
   * the best costs more.
   */
  predicate ScanInv(cost: seq<nat>, i: nat, r: Option<nat>, m: nat) {
    && i <= |cost| && m <= 3
    && (r.None? ==> m == 3)
    && (r.Some? ==> r.value < i && cost[r.value] == m < 3)
    && (forall j :: 0 <= j < i ==> cost[j] >= m)
    && (r.Some? ==> forall j :: 0 <= j < r.value ==> cost[j] > m)
  }

  /** One more entry: it becomes the best exactly when it is strictly cheaper. */
  lemma ScanStep(cost: seq<nat>, i: nat, r: Option<nat>, m: nat)
    requires ScanInv(cost, i, r, m) && i < |cost|
    ensures cost[i] < m ==> ScanInv(cost, i + 1, Some(i), cost[i])
    ensures cost[i] >= m ==> ScanInv(cost, i + 1, r, m)
  {
  }

  /** The loop's result, once every entry is seen or a zero-cost entry is found. */
  lemma ScanDone(cost: seq<nat>, i: nat, r: Option<nat>, m: nat)
    requires ScanInv(cost, i, r, m) && (i == |cost| || (r.Some? && m == 0))
    ensures r.Some? ==> r.value < |cost| && cost[r.value] < 3
    ensures r.Some? ==> forall j :: 0 <= j < r.value ==> cost[j] > cost[r.value]
    ensures r.Some? ==> forall j :: r.value < j < |cost| ==> cost[j] >= cost[r.value]
    ensures r.None? ==> forall j :: 0 <= j < |cost| ==> cost[j] >= 3
  {
  }

  /** Carries the loop's conclusion about the costs of a table over to its entries: nothing costs less than 3. */
  lemma NoneFromCosts(t: seq<Entry>, local: SockAddr, remote: SockAddr, exact: bool)
    requires local.IsInet() && remote.IsInet()
    requires forall j :: 0 <= j < |t| ==> Costs(t, local, remote, exact)[j] >= 3
    ensures forall j :: 0 <= j < |t| ==> !Eligible(t[j], local, remote, exact)
  {
    forall j | 0 <= j < |t|
      ensures !Eligible(t[j], local, remote, exact)
    {
      CostsAt(t, local, remote, exact, j);
    }
  }

  /** The same for a found entry k: cheaper than every earlier entry, no dearer than any later one. */
  lemma BestFromCosts(t: seq<Entry>, local: SockAddr, remote: SockAddr, exact: bool, k: nat)
    requires local.IsInet() && remote.IsInet() && k < |t|
    requires Costs(t, local, remote, exact)[k] < 3
    requires forall j :: 0 <= j < k ==> Costs(t, local, remote, exact)[j] > Costs(t, local, remote, exact)[k]
    requires forall j :: k < j < |t| ==> Costs(t, local, remote, exact)[j] >= Costs(t, local, remote, exact)[k]
    ensures Eligible(t[k], local, remote, exact)
    ensures forall j :: 0 <= j < k ==> Cost(t[j], local, remote, exact) > Cost(t[k], local, remote, exact)
    ensures forall j :: k < j < |t| ==> Cost(t[j], local, remote, exact) >= Cost(t[k], local, remote, exact)
  {
    CostsAt(t, local, remote, exact, k);
    forall j | 0 <= j < |t|
      ensures j < k ==> Cost(t[j], local, remote, exact) > Cost(t[k], local, remote, exact)
      ensures k < j ==> Cost(t[j], local, remote, exact) >= Cost(t[k], local, remote, exact)
    {
      CostsAt(t, local, remote, exact, j);
    }
  }

  /**
   * The test chitcpd_lookup_socket applies to one entry: it must match, an
   * exact lookup admits no wildcard, and it must need fewer wildcards than
   * the best entry so far. That is the same as costing less.
   */
  method TryEntry(e: Entry, local: SockAddr, remote: SockAddr, exact: bool, maxWildcards: nat)
    returns (take: bool, w: nat)
    requires local.IsInet() && remote.IsInet() && maxWildcards <= 3
    ensures take <==> Cost(e, local, remote, exact) < maxWildcards
    ensures take ==> w == Cost(e, local, remote, exact) && Eligible(e, local, remote, exact)
  {
    var ow := Wildcards(e, local, remote);
    if ow.None? || (ow.value > 0 && exact) || ow.value >= maxWildcards {
      return false, 0;
    }
    return true, ow.value;
  }

  /** The costs of all entries of a table, kept behind a recursive definition so they unfold only on demand. */
  ghost function Costs(t: seq<Entry>, local: SockAddr, remote: SockAddr, exact: bool): (r: seq<nat>)
    requires local.IsInet() && remote.IsInet()
    ensures |r| == |t|
  {
    if |t| == 0 then [] else Costs(t[..|t| - 1], local, remote, exact) + [Cost(t[|t| - 1], local, remote, exact)]
  }

  lemma {:induction false} CostsAt(t: seq<Entry>, local: SockAddr, remote: SockAddr, exact: bool, j: nat)
    requires local.IsInet() && remote.IsInet() && j < |t|
    ensures Costs(t, local, remote, exact)[j] == Cost(t[j], local, remote, exact)
  {
    if j < |t| - 1 {
      CostsAt(t[..|t| - 1], local, remote, exact, j);
    }
  }

  // ------------------------------------------------------------ event flags

  /**
   * chitcpd_update_tcp_state: the new state is stored; an active socket that
   * reaches CLOSED also gets its cleanup flag.
   */
  function UpdateTcpState(e: Entry, newState: TcpState): (r: Entry)
    ensures r.state == newState
    ensures r.flags.cleanup <==> e.flags.cleanup || (newState == CLOSED && e.actpas == SOCKET_ACTIVE)
    ensures r.flags.(cleanup := e.flags.cleanup) == e.flags
    ensures r.(state := e.state, flags := e.flags) == e
  {
    var e' := e.(state := newState);
    if newState == CLOSED && e.actpas == SOCKET_ACTIVE then e'.(flags := e'.flags.(cleanup := true)) else e'
  }

  /** tcp_timer_type_t. */
  const RETRANSMISSION: int := 0
  const PERSIST: int := 1

  /** chitcpd_timeout: raise the flag of the timer that fired; any other type raises nothing. */
  function Timeout(e: Entry, timerType: int): (r: Entry)
    ensures r.flags.timeoutRtx <==> e.flags.timeoutRtx || timerType == RETRANSMISSION
    ensures r.flags.timeoutPst <==> e.flags.timeoutPst || timerType == PERSIST
    ensures r.flags.(timeoutRtx := e.flags.timeoutRtx, timeoutPst := e.flags.timeoutPst) == e.flags
    ensures r.(flags := e.flags) == e
  {
    if timerType == RETRANSMISSION then e.(flags := e.flags.(timeoutRtx := true))
    else if timerType == PERSIST then e.(flags := e.flags.(timeoutPst := true))
    else e
  }

  /** Raising a flag twice is the same as raising it once. */
  lemma FlagsIdempotent(e: Entry, s: TcpState, t: int)
    ensures UpdateTcpState(UpdateTcpState(e, s), s) == UpdateTcpState(e, s)
    ensures Timeout(Timeout(e, t), t) == Timeout(e, t)
  {
  }
}
