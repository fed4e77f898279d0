# chiTCP core, modelled in Dafny

chiTCP is a teaching TCP stack. A daemon, `chitcpd`, keeps a table of
sockets and a table of ports. It serves socket calls from applications through
request handlers. It runs one TCP thread per active socket, and that thread hands
events to per-state handlers. Each socket has send and receive windows kept in
circular byte buffers. A small Python script grades the test results.

This project models the sequential, integer-only logic under that plumbing and
proves properties of it:

- `buffer.dfy` (module `CircularBuffer`): the sequence-numbered circular buffer.
  It is refined against the queue it represents (`Contents`). Write, read,
  peek and peek-at are stated in terms of that queue, including wrap-around
  of the array index and of the 32-bit sequence numbers.
- `serverinfo.dfy` (module `ServerInfo`): the socket table and the port table.
  This covers lowest-free-slot allocation, the ephemeral-port search, the
  wildcard-counting socket lookup, port release, and the flag effects of a
  state change or a timeout.
- `addr.dfy` (module `Addr`): IPv4 and IPv6 addresses, as bytes in network order.
  This covers port access, comparison, loopback, and the any-address.
- `utils.dfy` (module `Utils`): the Internet checksum and the state-name table.
- `packet.dfy` (module `Packet`): the 20-byte TCP header and its byte layout,
  packet construction, the `SEG_*` accessors, the chiTCP header, and packet lists.
- `byteorder.dfy` (module `ByteOrder`): host/network byte order for a
  little-endian host, and big-endian encodings.
- `multitimer.dfy` (module `MultiTimer`): `timespec_subtract`, plus the timer
  table as its header documents it, with expiry as an explicit step.
- `tcp_thread.dfy` (module `TcpThread`): one iteration of the TCP thread's
  event loop. This covers flag priority, clearing the chosen flag, dispatch by
  state, re-arming on pending packets, and cleanup.
- `handlers.dfy` (module `Handlers`): the validation and outcome logic of the
  daemon's SOCKET, BIND, LISTEN, CONNECT, SEND, RECV, CLOSE and WAIT_FOR_STATE
  handlers. Each handler result is an `Outcome`: it returned, it would block, an
  `assert` stopped the daemon, or it read outside the table.
- `tester_peer.dfy` (module `TesterPeer`): the state machine of the test
  harness's peer thread.
- `grade.dfy` (module `Grade`): `tests/grade.py`. It reads the manifest and
  the report, then computes per-category counts and scores (as `real`), the
  assignment totals, the not-run warning, and the output modes.
- `base.dfy` (module `Base`) holds the shared types: integer widths, `tcp_state_t`,
  return codes and errno values. `modarith.dfy` (module `ModArith`) holds
  arithmetic helper lemmas.

Threads, locks, condition variables and all I/O are not modelled. An operation
that would sleep is given a result that says so. A caller that cannot be seen
(the student-written TCP handlers, the tester's socket calls) is passed in as a
parameter.

## Model

| member | source | states |
|---|---|---|
| Base.StateOfIndex | include/chitcp/types.h:126-140 | An integer names a state exactly when it lies in CLOSED..LAST_ACK (IS_VALID_TCP_STATE), and then it names the state with that value |
| Base.StateIndexRoundTrip | include/chitcp/types.h:126-140 | Every state's value maps back to that state, so distinct states have distinct values |
| ByteOrder.Swap16 | src/libchitcp/packet.c:52-62 | htons/ntohs on a little-endian host exchange the two bytes of the value |
| ByteOrder.Swap32 | src/libchitcp/packet.c:64-73 | htonl/ntohl reverse the four bytes: the big-endian bytes of the result are those of the input in reverse order |
| ByteOrder.Swap16Involutive | src/libchitcp/packet.c:52-62 | ntohs undoes htons |
| ByteOrder.Swap32Involutive | src/libchitcp/packet.c:64-73 | ntohl undoes htonl |
| ByteOrder.Decode16BERoundTrip | include/chitcp/packet.h:220-254 | A 16-bit field's two bytes in network order and its value determine each other |
| ByteOrder.Decode32BERoundTrip | include/chitcp/packet.h:220-254 | A 32-bit field's value is read back from its four bytes in network order |
| ByteOrder.Encode32BERoundTrip | include/chitcp/packet.h:220-254 | Any four bytes are the network-order encoding of the value they decode to |
| ByteOrder.Decode32LEInjective | src/libchitcp/addr.c:118-143 | Two IPv4 addresses have the same s_addr word exactly when their bytes are equal |
| CircularBuffer.Init | src/libchitcp/buffer.c:46-63 | A new buffer of any size up to INT32_MAX is valid, open and empty, with both sequence numbers 0 |
| CircularBuffer.SetSeqInitialNumbers | src/libchitcp/buffer.c:65-72 | On a buffer fresh from init, setting the initial sequence number keeps it valid and its contents unchanged; first then reports the new number and next reports it plus the count |
| CircularBuffer.StoreAppends | src/libchitcp/buffer.c:104-129 | Copying a chunk in at the end, in one piece or wrapped around the array, appends exactly that chunk to the queue and keeps the count/end/sequence invariant |
| CircularBuffer.Write | src/libchitcp/buffer.c:75-136 | A zero length gives EINVAL, and a non-blocking write past capacity gives EWOULDBLOCK; both leave the buffer alone. Otherwise the queue grows by the first min(len, maxsize) bytes of the data, or by none if the buffer is closed. With a capacity of 0 a blocking write returns 0 at once, since the length is cut to 0 and the copy loop never runs. A blocking write that fills the buffer first stops there, having appended a strictly shorter prefix of min(len, maxsize) bytes. Capacity, the closed flag and seq_start never change |
| CircularBuffer.WriteNonBlocking | src/libchitcp/buffer.c:77-85 | On an open buffer, a non-blocking write either appends all its bytes (when they fit) or fails with EWOULDBLOCK |
| CircularBuffer.ReadInternal | src/libchitcp/buffer.c:138-200 | A zero length gives EINVAL. An empty non-blocking read gives EWOULDBLOCK, and an empty blocking read of an open buffer waits. Otherwise it returns min(len, count - offset) bytes of the queue from the offset on, in FIFO order. A read removes them and advances seq_start; a peek leaves the buffer as it was |
| CircularBuffer.CopyAndConsume | src/libchitcp/buffer.c:159-194 | Copying out across the end of the array yields the queue's bytes in order; consuming them leaves the rest of the queue and moves seq_start forward by the same amount |
| CircularBuffer.ReadConsumes | src/libchitcp/buffer.c:159-194 | The one- or two-piece copy from the physical start is the logical queue slice, and the advanced start/count/seq_start describe the remaining queue |
| CircularBuffer.Read | src/libchitcp/buffer.c:202-205 | read fails exactly for a zero length (EINVAL) or an empty non-blocking buffer (EWOULDBLOCK), and waits exactly when a blocking read finds the buffer open and empty. Otherwise it returns the first min(len, count) bytes of the queue, leaves the rest as the new queue and advances seq_start by the count read |
| CircularBuffer.Peek | src/libchitcp/buffer.c:207-210 | peek succeeds exactly when read does; otherwise it gives read's very outcome (the same error code, or the same wait); on success it returns read's bytes, the front of the queue, and leaves the buffer unchanged |
| CircularBuffer.PeekAtAsWritten | src/libchitcp/buffer.c:212-223 | As written, peek_at compares sequence numbers as plain unsigned integers, so once seq_end has wrapped below seq_start every position is refused |
| CircularBuffer.PeekAt | src/libchitcp/buffer.c:212-223 | peek_at refuses with EINVAL exactly when len is 0 or at lies outside [seq_start, seq_end) in 32-bit sequence space; otherwise it returns the bytes from stream offset at - seq_start on and leaves the buffer unchanged |
| CircularBuffer.PeekAtFindsByte | src/libchitcp/buffer.c:212-223 | Peeking one byte at the sequence number of queue position i returns the byte at position i |
| CircularBuffer.PeekAtAgreesWithoutWrap | src/libchitcp/buffer.c:212-223 | While the sequence numbers have not wrapped, peek_at as written and the corrected peek_at agree for every position and every length |
| CircularBuffer.PeekAtWrapCounterexample | src/libchitcp/buffer.c:216-217 | A valid buffer whose seq_end has wrapped past 2^32: peek_at as written refuses a position it holds, and the corrected one returns that byte |
| CircularBuffer.First | src/libchitcp/buffer.c:225-228 | first reports seq_start, converted to int |
| CircularBuffer.Next | src/libchitcp/buffer.c:230-233 | next reports seq_end, converted to int |
| CircularBuffer.Capacity | src/libchitcp/buffer.c:235-238 | capacity is the buffer's maxsize |
| CircularBuffer.Count | src/libchitcp/buffer.c:240-243 | count is the length of the queue |
| CircularBuffer.Available | src/libchitcp/buffer.c:245-248 | available is the free room, which is zero exactly when the queue is full |
| CircularBuffer.Close | src/libchitcp/buffer.c:274-283 | Closing keeps the queue and marks the buffer closed |
| CircularBuffer.ClosedBufferDrains | src/libchitcp/buffer.c:98-102 | Once closed, an empty buffer reads 0 bytes even when blocking, and a write stores nothing and returns 0 |
| CircularBuffer.WriteThenRead | src/libchitcp/buffer.c:75-200 | Writing data into an empty open buffer and then reading it back returns the same data and leaves the buffer empty |
| Addr.GetAddrPort | src/libchitcp/addr.c:56-75 | The port of an IPv4 or IPv6 address; (in_port_t)-1, that is 65535, for any other family |
| Addr.SetAddrPort | src/libchitcp/addr.c:78-94 | Setting the port keeps the family and IP, and the port is then read back |
| Addr.SetGetPort | src/libchitcp/addr.c:56-94 | get after set gives the port set; setting an address's own port, or restoring it after a change, gives the address back |
| Addr.MemCmpZero | src/libchitcp/addr.c:139 | memcmp of equal-length byte strings is 0 exactly when they are equal, and swapping the arguments flips its sign |
| Addr.AddrCmp | src/libchitcp/addr.c:118-143 | addr_cmp is 0 exactly when the families and the IP addresses are equal; the port takes no part |
| Addr.AddrCmpReflexive | src/libchitcp/addr.c:118-143 | An address compares equal to itself and to itself with any other port |
| Addr.AddrPortCmp | src/libchitcp/addr.c:146-171 | addr_port_cmp is 0 exactly when the families and the ports are equal |
| Addr.AddrPortCmpAntisymmetric | src/libchitcp/addr.c:146-171 | Swapping the arguments of addr_port_cmp flips its sign |
| Addr.IsLoopback | src/libchitcp/addr.c:189-207 | Loopback is exactly 127.0.0.1 for IPv4 and ::1 for IPv6 |
| Addr.AnyWord4 | src/libchitcp/addr.c:214-219 | An IPv4 s_addr equals htonl(INADDR_ANY) exactly when all four bytes are zero |
| Addr.AnyBytes6 | src/libchitcp/addr.c:220-225 | An IPv6 address compares equal to in6addr_any exactly when all sixteen bytes are zero |
| Addr.IsAny | src/libchitcp/addr.c:210-228 | An address is the any-address exactly when every byte of its IP is zero |
| Addr.SetAny | src/libchitcp/addr.c:231-247 | set_any zeroes the IP and keeps the family and the port |
| Addr.SetAnyIsAny | src/libchitcp/addr.c:210-247 | After set_any the address is the any-address and has the same family and port as before |
| Addr.AnyIgnoresPort | src/libchitcp/addr.c:210-228 | Whether an address is the any-address does not depend on its port |
| Addr.LoopbackIsNotAny | src/libchitcp/addr.c:189-247 | No loopback address is the any-address, and set_any is idempotent |
| Utils.WordSumAppend | src/libchitcp/utils.c:74-82 | The 16-bit word sum of an even-length prefix followed by more data is the sum of the two parts |
| Utils.WordSumPadding | src/libchitcp/utils.c:80-82 | An odd trailing byte counts as the high byte of a word whose low byte is zero |
| Utils.EndAroundCarry | src/libchitcp/utils.c:84-87 | Folding the carries gives a 16-bit value that is 0 only for a zero sum and is congruent to the sum modulo 0xFFFF |
| Utils.FoldCarries | src/libchitcp/utils.c:84-87 | The carry-folding loop computes the end-around-carry sum of its 32-bit input |
| Utils.Checksum | src/libchitcp/utils.c:69-92 | The checksum is never 0. Before the byte swap it is the ones' complement of the folded word sum, with a zero complement reported as 0xFFFF |
| Utils.Cksum | src/libchitcp/utils.c:69-92 | The summing and folding loops of cksum compute the checksum of the whole input, with the sum kept in a wrapping uint32_t |
| Utils.SumWords | src/libchitcp/utils.c:74-82 | The word loop leaves the 16-bit big-endian word sum of the data, modulo 2^32 |
| Utils.CksumVerifies | src/libchitcp/utils.c:69-92 | Appending a block's stored checksum to it makes the checksum of the whole 0xFFFF, the verification rule of RFC 1071 |
| Utils.ComplementCancels | src/libchitcp/utils.c:84-89 | Adding the ones' complement of a folded sum back in folds to all ones |
| Utils.AllOnesChecksum | src/libchitcp/utils.c:89-91 | A block whose folded sum is all ones has checksum 0xFFFF, because a zero complement is reported as 0xFFFF |
| Utils.TcpStr | src/libchitcp/utils.c:52-65 | tcp_str returns one of the eleven state names |
| Utils.StateNamedFrom | src/libchitcp/utils.c:52-65 | Looking a name up in the table finds it exactly when it is there, and the state found is named by it |
| Utils.TcpStrRoundTrip | src/libchitcp/utils.c:52-65 | Each state's name looks up to that state, so distinct states have distinct names |
| Utils.NamesDistinct | src/libchitcp/utils.c:52-65 | The entries of tcp_state_names are pairwise distinct |
| Packet.FlagsByteZero | include/chitcp/packet.h:220-254 | The flags byte is zero exactly when no flag is set |
| Packet.FlagsOfFlagsByte | include/chitcp/packet.h:220-254 | The eight flag bit-fields are read back as written |
| Packet.FlagsByteOfFlags | include/chitcp/packet.h:220-254 | Every flags byte is the encoding of the flags it decodes to |
| Packet.EncodeHeader | include/chitcp/packet.h:220-257 | The header occupies TCP_HEADER_NOOPTIONS_SIZE = 20 bytes |
| Packet.EncodeHeaderSlices | include/chitcp/packet.h:220-254 | Where each field of tcphdr_t lies in the 20 bytes, with multi-byte fields in network order and doff in the high nibble of byte 12, as in section 3.1 of RFC 9293 |
| Packet.DecodeEncodeHeader | include/chitcp/packet.h:220-254 | Any header is read back from its encoding |
| Packet.EncodeDecodeHeader | include/chitcp/packet.h:220-257 | The first 20 bytes of any packet are the encoding of the header read from them |
| Packet.TcpPacketInit | src/libchitcp/packet.c:76-91 | tcp_packet_init returns the packet length, 20 + payload_len, and the header it writes is the all-zero header with doff 5 |
| Packet.InitialHeaderDecodes | src/libchitcp/packet.c:81-85 | The initial header bytes read as zero fields with a data offset of 5 |
| Packet.TcpPacketInitPayload | src/libchitcp/packet.c:76-91 | For a new packet, the payload starts at byte 20, TCP_PAYLOAD_LEN is payload_len, the payload is the bytes given, and SEG_LEN is payload_len |
| Packet.DecodeBeforePayload | include/chitcp/packet.h:263 | The header read from a packet does not depend on the payload that follows it |
| Packet.Doff | include/chitcp/packet.h:220-254 | The data offset is the one in the packet's header |
| Packet.PayloadLen | include/chitcp/packet.h:266 | TCP_PAYLOAD_LEN is the length minus 4·doff, as a size_t: exact when the header fits, otherwise wrapped |
| Packet.Payload | include/chitcp/packet.h:263-266 | The payload runs from byte 4·doff for TCP_PAYLOAD_LEN bytes |
| Packet.SegSeq | include/chitcp/packet.h:272 | SEG_SEQ is the header's sequence number in host order |
| Packet.SegAck | include/chitcp/packet.h:275 | SEG_ACK is the header's acknowledgment number in host order |
| Packet.SegWnd | include/chitcp/packet.h:281 | SEG_WND is the header's window in host order |
| Packet.SegUp | include/chitcp/packet.h:284 | SEG_UP is the header's urgent pointer in host order |
| Packet.SegLen | include/chitcp/packet.h:278 | SEG_LEN counts SYN and FIN as one each, plus the payload length, as in section 3.3.1 of RFC 9293 |
| Packet.NtohlOfLoad | include/chitcp/packet.h:272-275 | Loading four header bytes as a host word and applying ntohl gives their network-order value |
| Packet.SegFieldsOfHeader | include/chitcp/packet.h:272-284 | For a packet built from a header and a payload, the SEG_* accessors return that header's fields, and SEG_LEN adds SYN and FIN to the payload length |
| Packet.EncodeChitcpHeader | include/chitcp/packet.h:295-303 | The chiTCP header is 16 bytes: payload_len in bytes 0-1, proto in byte 2, flags in byte 3, and the three reserved words in bytes 4-15 are zero |
| Packet.ChitcpHeaderRoundTrip | include/chitcp/packet.h:295-310 | The chiTCP header's payload_len and proto are read back as written |
| Packet.Prepend | src/libchitcp/packet.c:117-126 | prepend puts the packet in front of the list |
| Packet.Append | src/libchitcp/packet.c:129-138 | append puts the packet after the last element of the list |
| Packet.PopHead | src/libchitcp/packet.c:141-146 | pop_head drops the first element and keeps the order of the rest |
| Packet.Size | src/libchitcp/packet.c:149-157 | size counts the elements of the list |
| Packet.ListQueue | src/libchitcp/packet.c:117-146 | pop_head undoes prepend; appending and popping at opposite ends commute, so a list used with append and pop_head is a FIFO queue |
| ServerInfo.FreeEntryValid | src/chitcpd/serverinfo.c:237-239 | A freed entry has valid (zeroed) buffers, is available, and has no flag raised |
| ServerInfo.LowestAvailable | src/chitcpd/serverinfo.c:139-150 | The first available slot from a position on, or none when every slot from there is taken |
| ServerInfo.AllocateSocket | src/chitcpd/serverinfo.c:132-177 | allocate_socket claims the lowest-index available slot and returns CHITCP_OK, or returns CHITCP_ESOCKET with the tables unchanged when no slot is available; the port table is never touched |
| ServerInfo.AllocatedSlot | src/chitcpd/serverinfo.c:139-166 | The claimed slot is in use, CLOSED and uninitialised, and every other slot is unchanged |
| ServerInfo.FreeSocketEntryAsWritten | src/chitcpd/serverinfo.c:180-244 | As written, freeing clears the port slot of get_addr_port's result even when the local address has no port, which is then slot 65535 |
| ServerInfo.FreeSocketEntry | src/chitcpd/serverinfo.c:180-244 | Freeing resets the entry to the available zero entry, clears the port slot of its local port when it has one, and changes no other slot and no other port |
| ServerInfo.FreeAgreesOnInet | src/chitcpd/serverinfo.c:232-235 | For an entry with an IPv4 or IPv6 local address, the as-written and corrected free are the same |
| ServerInfo.FreeUnboundClearsPort65535 | src/chitcpd/serverinfo.c:232-235 | Freeing an entry that never got a local address, as written, takes port 65535 away from another socket that holds it; the corrected free leaves it |
| ServerInfo.FreeThenAllocate | src/chitcpd/serverinfo.c:132-244 | When every slot below a freed one is in use, the next allocation gets the freed slot |
| ServerInfo.FirstFreePort | src/chitcpd/serverinfo.c:251-258 | The first free port slot from a position on, or none when all are taken |
| ServerInfo.FindEphemeralPort | src/chitcpd/serverinfo.c:247-261 | The corrected search returns the smallest free port from ephemeral_port_start on, or -1 when there is none |
| ServerInfo.FindEphemeralPortAsWritten | src/chitcpd/serverinfo.c:247-261 | As written, the result goes through a uint16_t, so it is never -1: an exhausted search reports 65535 |
| ServerInfo.EphemeralExhaustedReports65535 | src/chitcpd/serverinfo.c:249 | When no ephemeral port is free, the as-written search reports 65535, a port that is in use |
| ServerInfo.SideWildcards | src/chitcpd/serverinfo.c:295-321 | One side of a lookup matches with at most one wildcard |
| ServerInfo.Wildcards | src/chitcpd/serverinfo.c:281-321 | A candidate that matches needs at most two wildcards |
| ServerInfo.WildcardsMeaning | src/chitcpd/serverinfo.c:281-321 | A candidate matches exactly when it is in use, its families match the query, its local port equals the query's, and each side's address is equal unless one of the two is the any-address (on the remote side, the port must be equal as well); the wildcard count is the number of sides where exactly one address is the any-address |
| ServerInfo.Cost | src/chitcpd/serverinfo.c:281-328 | A candidate is eligible exactly when its cost is below 3, and then the cost is its wildcard count; with exact_match_only, only zero-wildcard matches are eligible |
| ServerInfo.LookupSocket | src/chitcpd/serverinfo.c:268-343 | lookup_socket returns an eligible entry with strictly fewer wildcards than every earlier entry and no more than every later one, so the lowest-index entry of fewest wildcards; it returns none exactly when no entry is eligible |
| ServerInfo.ScanTable | src/chitcpd/serverinfo.c:276-340 | The scan, with its early exit on a zero-wildcard match, finds the first entry of least cost |
| ServerInfo.TryEntry | src/chitcpd/serverinfo.c:325-338 | A candidate replaces the best so far exactly when its wildcard count is smaller |
| ServerInfo.UpdateTcpState | src/chitcpd/serverinfo.c:87-108 | The entry takes the new state, and cleanup is raised only when an active socket moves to CLOSED; nothing else changes |
| ServerInfo.Timeout | src/chitcpd/serverinfo.c:111-129 | A retransmission timeout raises timeout_rtx and a persist timeout raises timeout_pst; nothing else changes |
| ServerInfo.FlagsIdempotent | src/chitcpd/serverinfo.c:87-129 | Repeating a state change or a timeout changes nothing more |
| MultiTimer.TimespecSubtract | src/libchitcp/multitimer.c:51-76 | The difference denotes exactly x - y in nanoseconds; for normalised inputs it is normalised and the flag is 1 exactly when x is before y |
| MultiTimer.CarryKeepsInstant | src/libchitcp/multitimer.c:53-67 | The carry steps move whole seconds within the copy of y, so they keep the instant it denotes, and for normalised inputs they leave x.nsec - y.nsec in [0, 10^9) |
| MultiTimer.SubtractAntisymmetric | src/libchitcp/multitimer.c:51-76 | x - x is zero with flag 0; y - x is the negation of x - y, and for distinct instants exactly one of the two flags is 1 |
| MultiTimer.MtInit | include/chitcp/multitimer.h:102-118 | mt_init(n) gives n timers whose ids are their indices, all inactive with no timeouts |
| MultiTimer.MtGetTimerById | include/chitcp/multitimer.h:134-151 | Lookup fails with CHITCP_EINVAL exactly for an id past the table, and otherwise returns the timer with that id |
| MultiTimer.MtSetTimer | include/chitcp/multitimer.h:154-177 | mt_set_timer fails with CHITCP_EINVAL exactly for an invalid id or an active timer, and then changes nothing; otherwise it activates that one timer |
| MultiTimer.MtCancelTimer | include/chitcp/multitimer.h:180-193 | mt_cancel_timer fails with CHITCP_EINVAL exactly for an invalid id or an inactive timer; otherwise it deactivates that one timer and keeps its timeout count |
| MultiTimer.Expire | tests/test_tcp_multitimer.c:213-248 | An active timer that expires becomes inactive and counts one more timeout; other timers, and an inactive one, are unchanged |
| MultiTimer.CancelUndoesSet | include/chitcp/multitimer.h:154-193 | Cancelling a timer that was just set gives back the table as it was |
| MultiTimer.SetExpireTwice | tests/test_tcp_multitimer.c:213-248 | A timer set and left to expire twice has two timeouts; setting it again while it is active is refused |
| MultiTimer.SetEvenTimers | tests/test_tcp_multitimer.c:285-312 | Setting and expiring the even timers leaves each of them with one timeout and each odd one untouched |
| TcpThread.TcpEventStr | src/chitcpd/tcp.h:101-116 | tcp_event_str returns one of the eight event names |
| TcpThread.TcpEventStrInjective | src/chitcpd/tcp.h:101-116 | Distinct events have distinct names |
| TcpThread.Clear | src/chitcpd/tcp_thread.c:288-352 | Clearing an event's flag lowers that flag and leaves every other flag as it was |
| TcpThread.ClearLowersRaw | src/chitcpd/tcp_thread.c:288-352 | Clearing a raised flag takes exactly its bit out of the raw flags byte |
| TcpThread.SelectEvent | src/chitcpd/tcp_thread.c:273-352 | An event is chosen exactly when some flag is raised (raw != 0), and the chosen event's flag is raised |
| TcpThread.SelectIsHighestPriority | src/chitcpd/tcp_thread.c:276-352 | The chosen event is the first raised one in the order cleanup, app_close, app_connect, app_recv, app_send, net_recv, timeout_rtx, timeout_pst |
| TcpThread.DispatchByState | src/chitcpd/tcp_thread.c:89-102 | The handler table lists one handler per state in tcp_state_t order, so a state's value indexes its own handler |
| TcpThread.ThreadStep | src/chitcpd/tcp_thread.c:221-358 | The thread sleeps exactly when no flag is raised. The cleanup assert fails exactly when cleanup is raised outside CLOSED. Cleanup dispatches CLEANUP and ends the loop. Any other step handles the highest-priority event |
| TcpThread.ThreadStepHandsOver | src/chitcpd/tcp_thread.c:288-352 | The handler gets the entry with exactly the chosen flag cleared, in the state it was in. After the handler returns, the loop's only change is to re-raise net_recv while packets are pending |
| TcpThread.PendingPacketsRearm | src/chitcpd/tcp_thread.c:320-336 | After a packet arrival, net_recv is raised exactly when the handler left it raised or left packets pending |
| TcpThread.CleanupPreempts | src/chitcpd/tcp_thread.c:276-287 | A CLOSED entry with cleanup raised exits after the CLEANUP dispatch, whatever else is raised |
| TcpThread.StartThread | src/chitcpd/tcp_thread.c:232-233 | A starting thread gives the entry two valid, empty buffers of TCP_BUFFER_SIZE bytes and changes nothing else |
| Handlers.Socket | src/chitcpd/handlers.c:253-289 | SOCKET claims the lowest available slot and records the domain, type and protocol, replying with its index; with no slot free it replies ENOMEM and changes nothing |
| Handlers.Bind | src/chitcpd/handlers.c:293-386 | BIND replies EBADF for a descriptor not in use or not CLOSED, and EINVAL when the port is taken. It stops the daemon for an address of another family. An open CLOSED socket with a free port and an IPv4 or IPv6 address is bound: the reply is 0, the port is claimed and the address set. The handler always returns CHITCP_OK |
| Handlers.Bound | src/chitcpd/handlers.c:366-374 | A successful bind records the local address, sets the remote address to the any-address of that family with port 0, and claims the port for the socket |
| Handlers.BindClaimsPort | src/chitcpd/handlers.c:320-376 | After a successful bind, binding another CLOSED socket to the same address fails with EINVAL, and freeing the bound socket releases the port |
| Handlers.Listen | src/chitcpd/handlers.c:390-446 | LISTEN succeeds exactly on a CLOSED socket in use, making it passive in LISTEN with the given backlog and no pending connections, and changing nothing else; otherwise it replies EBADF |
| Handlers.ConnectLocal | src/chitcpd/handlers.c:702-708 | The local address of a connecting socket has the peer's family and the ephemeral port; it is the peer's IP for a loopback peer and the any-address otherwise |
| Handlers.ConnectWithPort | src/chitcpd/handlers.c:622-773 | CONNECT replies EBADF for a descriptor not in use, EALREADY outside CLOSED, and EAGAIN when there is no port. It stops the daemon for an address of another family. Every open CLOSED socket with a port and an IPv4 or IPv6 peer address makes it wait with the socket connected |
| Handlers.Connected | src/chitcpd/handlers.c:682-726 | A connecting socket becomes active with the peer as remote address, claims its port, and has only app_connect raised; other entries are unchanged |
| Handlers.Connect | src/chitcpd/handlers.c:622-773 | With the corrected port search, CONNECT takes the first free ephemeral port, which was free before and belongs to the socket after |
| Handlers.ConnectAsWritten | src/chitcpd/handlers.c:672-679 | As written, CONNECT never replies EAGAIN, because the port search never reports -1 |
| Handlers.ConnectExhausted | src/chitcpd/handlers.c:672-679 | With every ephemeral port taken, the corrected CONNECT replies EAGAIN, while as written it takes port 65535 away from the socket that holds it |
| Handlers.ConnectWaitOver | src/chitcpd/handlers.c:744-758 | A connect wait ends, replying 0, exactly when the socket reaches ESTABLISHED |
| Handlers.Send | src/chitcpd/handlers.c:777-879 | SEND replies EINVAL for length 0 before looking at the descriptor, then EBADF for a descriptor not in use, then the refusal of the state table (ENOTCONN in CLOSED, EOPNOTSUPP in LISTEN, ENOTCONN outside SYN_SENT, SYN_RCVD, ESTABLISHED and CLOSE_WAIT); otherwise it writes |
| Handlers.SendWrite | src/chitcpd/handlers.c:848-867 | The write appends what the send buffer accepts and replies with that count. It raises app_send only in ESTABLISHED or CLOSE_WAIT, and changes nothing else. A length that is 0 modulo 2^32 gives EINVAL. A full buffer makes the handler wait with a prefix of the data appended |
| Handlers.Recv | src/chitcpd/handlers.c:883-999 | RECV replies EINVAL for length 0 and EBADF for a descriptor not in use. It replies ENOTCONN in CLOSED and for a passive LISTEN socket. It returns 0 without reading in CLOSING, TIME_WAIT and LAST_ACK. Otherwise it reads |
| Handlers.RecvRead | src/chitcpd/handlers.c:949-983 | A length that is 0 as a uint32_t, and only such a length, gets EINVAL. A non-empty buffer always gives a read of min(len, count) bytes from the front, replied with those bytes. app_recv is raised only in ESTABLISHED, FIN_WAIT_1 or FIN_WAIT_2. The handler waits exactly when the buffer is open and empty. A closed empty buffer replies 0 in CLOSING, TIME_WAIT, CLOSE_WAIT, LAST_ACK and CLOSED, and stops the daemon in any other state |
| Handlers.Close | src/chitcpd/handlers.c:1003-1168 | CLOSE follows the per-state table: ENOTCONN in CLOSED, FIN_WAIT_1/2, CLOSING, LAST_ACK and TIME_WAIT; a passive LISTEN socket is freed with reply 0; EOPNOTSUPP for an active LISTEN, SYN_SENT or SYN_RCVD socket; ESTABLISHED and CLOSE_WAIT raise app_close and wait; it never reads outside the table |
| Handlers.CloseWaitOver | src/chitcpd/handlers.c:1128-1160 | A close wait from ESTABLISHED ends in FIN_WAIT_2, CLOSING, TIME_WAIT or CLOSED, and one from CLOSE_WAIT ends in LAST_ACK or CLOSED, replying 0 |
| Handlers.ListenThenClose | src/chitcpd/handlers.c:390-446 | A socket put into LISTEN and then closed is freed with reply 0 and its slot becomes available |
| Handlers.WaitForStateChecked | src/chitcpd/handlers.c:1324-1368 | For a freed slot and CLOSED it replies 0 at once. Otherwise it replies EBADF unless the socket is active and in use, and EINVAL for a value that is not a state. It replies 0 exactly when the socket is already in the requested state, and waits otherwise |
| Handlers.WaitForStateAsWritten | src/chitcpd/handlers.c:1308-1368 | As written, the handler reads the slot before checking the descriptor's range, so an out-of-range descriptor reads outside the table |
| Handlers.WaitForState | src/chitcpd/handlers.c:1308-1368 | With the range checked first, an out-of-range descriptor replies EBADF, and the handler never reads outside the table |
| Handlers.WaitForStateOutOfRange | src/chitcpd/handlers.c:1324 | The descriptor one past the table reads outside it as written and gets EBADF when corrected; in range the two agree |
| TesterPeer.PostEvent | src/libchitcp/tester_peer.c:234-252 | An event is accepted exactly when none is pending, and then it becomes the pending event |
| TesterPeer.ClosePeer | src/libchitcp/tester_peer.c:106-122 | close closes the active descriptor and then the listening one if there is one |
| TesterPeer.PeerStep | src/libchitcp/tester_peer.c:125-203 | The peer sleeps exactly when no event is pending. After a step no event is pending, the loop ends exactly on EXIT, and the peer is in the last state it passed through. The process exits exactly when the event's own socket call fails: socket or its set-up for INIT, accept for ACCEPT, listen, connect or close for the others |
| TesterPeer.FixedTransitions | src/libchitcp/tester_peer.c:150-165 | With their socket calls succeeding, INIT gives INITIALIZED with the new descriptor and no passive one. LISTEN gives SERVER_LISTENING and CONNECT gives CLIENT_READY. ACCEPT gives SERVER_READY with the accepted descriptor active and the listening one passive |
| TesterPeer.RunRestoresState | src/libchitcp/tester_peer.c:166-172 | RUN passes through RUNNING_FUNCTION and then returns to the state it started in |
| TesterPeer.CloseFollowsTable | src/libchitcp/tester_peer.c:173-191 | CLOSE takes SERVER_READY through SERVER_CLOSING to SERVER_CLOSED and CLIENT_READY through CLIENT_CLOSING to CLIENT_CLOSED, and leaves any other state unchanged |
| TesterPeer.PostAfterStep | src/libchitcp/tester_peer.c:197-252 | A second event cannot be posted while one is pending, and can be once the step has handled it |
| TesterPeer.ServerLifecycle | src/libchitcp/tester_peer.c:15-122 | INIT, LISTEN, ACCEPT and CLOSE leave a server SERVER_CLOSED, with the accepted descriptor active, the listening one passive, and both closed, the accepted one first |
| TesterPeer.ClientLifecycle | src/libchitcp/tester_peer.c:15-122 | INIT, CONNECT and CLOSE leave a client CLIENT_CLOSED with its one descriptor closed |
| Grade.Assignment1Weights | tests/grade.py:21-28 | The category weights of assignment 1 are non-negative and add up to its 50 points |
| Grade.Assignment2Weights | tests/grade.py:22-35 | The category weights of assignment 2 are non-negative and add up to its 50 points |
| Grade.AssignmentTable | tests/grade.py:21-35 | Every assignment's weights add up to its points |
| Grade.CategoryKeysDistinct | tests/grade.py:26-35 | No category key is used twice across the assignments |
| Grade.StripRight | tests/grade.py:62 | Stripping on the right removes only trailing whitespace, where whitespace is every character `str.isspace()` accepts, and leaves a string that does not end in whitespace |
| Grade.StripLeft | tests/grade.py:62 | Stripping on the left removes only leading whitespace, where whitespace is every character `str.isspace()` accepts, and leaves a string that does not start with whitespace |
| Grade.StripPadded | tests/grade.py:62 | A string with no whitespace at either end is its own strip, whatever whitespace (such as the newline) follows it |
| Grade.StripRightPadding | tests/grade.py:62 | Trailing whitespace does not change the right strip |
| Grade.FirstSep | tests/grade.py:62 | The first "::" at or after a position, or none |
| Grade.Split | tests/grade.py:62 | The parts joined with "::" give the string back, and no part contains the separator |
| Grade.ParseLine | tests/grade.py:62 | A line parses exactly into the two parts around its one "::"; otherwise the unpack raises ValueError |
| Grade.ParseFormatted | tests/grade.py:62 | A line category::test followed by whitespace parses back into (category, test) |
| Grade.SplitAtSep | tests/grade.py:62 | Splitting category::test gives exactly those two parts |
| Grade.SetEntry | tests/grade.py:63 | Setting a dict entry replaces the value of an existing key in place, or adds the key at the end, keeping keys unique |
| Grade.SetEntryKeeps | tests/grade.py:63 | Setting an entry keeps every key that was there |
| Grade.AddTest | tests/grade.py:60-64 | A manifest line declares its test in its category with outcome 0 and records its id, keeping every earlier declaration |
| Grade.DeclareAll | tests/grade.py:60-64 | After the manifest loop every line's test is declared with outcome 0. A category holds a test exactly when some line names that pair, so num_total counts the distinct ids the lines give the category. The categories and the ids are exactly those of the lines |
| Grade.Collect | tests/grade.py:60-64 | The lines parse when every one does, and the error is that of the first bad line |
| Grade.LoadManifest | tests/grade.py:60-64 | The manifest loads exactly when every line parses. Otherwise it fails with the ValueError of the first bad line. Once loaded, it declares every line's test |
| Grade.ApplyTest | tests/grade.py:73-77 | A reported test always joins the run ids. Only PASSED sets its outcome to 1, inserting it if undeclared. PASSED under an unknown suite raises KeyError. Outcomes stay 0 or 1. Afterwards a category holds, or has passed, a test exactly when it did before or this is that test reported PASSED under it |
| Grade.ApplyTests | tests/grade.py:70-77 | A suite raises KeyError exactly when its name is unknown and some test passed; otherwise all its names join the run ids. A category holds, or has passed, a test exactly when it did before or the suite is that category and reports the test PASSED |
| Grade.ApplyReport | tests/grade.py:70-77 | The report raises KeyError exactly when some suite has an unknown name and a passed test; otherwise every reported name joins the run ids and the categories stay the same. Afterwards a test has outcome 1 in a category exactly when it had before or some suite of that name reports it PASSED. Every test newly in a category is such a PASSED test |
| Grade.FailuresOnlyMarkRun | tests/grade.py:73-77 | A suite without a PASSED test changes no outcome and only records its test names as run |
| Grade.Successes | tests/grade.py:96 | With 0/1 outcomes the successes lie between 0 and the total: the total exactly when all passed, and 0 exactly when none did |
| Grade.SuccessesAppend | tests/grade.py:77 | A test added at the end adds its outcome to sum(values()) |
| Grade.SuccessesUpdate | tests/grade.py:77 | Replacing one outcome changes sum(values()) by the difference |
| Grade.PassRaisesSuccesses | tests/grade.py:77 | A PASSED test that was not declared is inserted, raising both num_total and num_success by one. A declared one raises num_success by 1 minus its old outcome |
| Grade.CategoryCounts | tests/grade.py:94-98 | num_success + num_failed == num_total, and the total is the number of tests in the category |
| Grade.CategoryScore | tests/grade.py:112-115 | A category scores 0 when it has no tests. Otherwise its score lies between 0 and its points: the full points when all passed, and 0 when none did |
| Grade.FractionOfWeight | tests/grade.py:115 | A fraction between 0 and 1 of a weight lies between 0 and the weight |
| Grade.ScoreRows | tests/grade.py:91-115 | An assignment's categories score exactly when all are in the manifest. Otherwise the first missing one raises KeyError. Each row holds that category's counts and score |
| Grade.TotalBounds | tests/grade.py:117 | A total of category scores lies between 0 and the sum of the weights, and reaches it when every category does |
| Grade.AssignmentTotal | tests/grade.py:21-35 | An assignment's total lies between 0 and its points, and is exactly its points when every category has tests and all of them passed |
| Grade.ScoreAll | tests/grade.py:91-132 | Scoring succeeds exactly when no assignment lacks a category, and then gives each assignment its rows |
| Grade.GsTestsOf | tests/grade.py:120-126 | A gradescope entry per category holds its score, its points and its name |
| Grade.Totals | tests/grade.py:132 | pscores holds each assignment's total, in assignment order |
| Grade.Emit | tests/grade.py:79-150 | The warning appears exactly when some declared test did not run and CSV mode is off. Tables appear only outside CSV and gradescope. CSV gives the totals in order. The gradescope output message follows the warning. No score depends on the tests that did not run |
| Grade.GsLoopOutput | tests/grade.py:85-89 | Every gradescope document carries the output message or not, as the warning decided |
| Grade.GsLoopSelected | tests/grade.py:120-139 | With a selector, the loop prints one document, holding only the selected assignment's categories and total |
| Grade.GsLoopAll | tests/grade.py:120-126 | Without a selector the loop prints nothing and collects every category of every assignment |
| Grade.GradescopeSelected | tests/grade.py:120-139 | A gradescope run with a selector k emits exactly one document with assignment k's categories and total, or none when k is out of range |
| Grade.GradescopeAll | tests/grade.py:141-146 | A gradescope run without a selector emits one document with every category and the sum of all totals |
| Grade.TotalsBounded | tests/grade.py:100-132 | Each assignment's total lies between 0 and its points |
| Grade.GradeManifest | tests/grade.py:70-150 | Grading a loaded manifest fails only with KeyError, and in CSV mode gives one total per assignment, each between 0 and its points |
| Grade.GradeWith | tests/grade.py:57-150 | Grading fails with ValueError exactly when some manifest line does not parse |
| Grade.GradeRun | tests/grade.py:21-150 | With the two assignments of the script, grading fails with ValueError exactly when a manifest line is malformed, and CSV mode gives two totals, each between 0 and 50 |

## Left out

- Threads, locks and condition variables. A handler or buffer operation that would sleep returns a `Waits` outcome. What happens after the wakeup is not modelled, except for the conditions that end the connect and close waits (`ConnectWaitOver`, `CloseWaitOver`).
- CircularBuffer.Write: a blocking write that fills the buffer stops with the data it has appended so far (`WroteThenBlocked`); the continuation after a reader frees room is not modelled.
- CircularBuffer.Init: buffers larger than INT32_MAX are outside the model's invariant, because `circular_buffer_count` and the other accessors return `int`.
- circular_buffer_dump and circular_buffer_free, and the buffer mutex: logging and memory management only.
- chitcp_addr_construct and chitcp_addr_str: they call getaddrinfo and inet_ntop, which are not part of this model.
- Addr.AddrCmp: only whether the result is zero is stated, and for IPv6 the sign as memcmp gives it. The C standard does not fix memcmp's non-zero value.
- Addresses are an abstract IPv4/IPv6 datatype holding bytes in network order, not a sockaddr memory layout. An address of any other family keeps only its family number.
- The host is taken to be little-endian, so htons/ntohs and htonl/ntohl are byte swaps.
- chitcpd_set_header_ports and chitcpd_tcp_packet_create, in serverinfo.c: they only copy ports into a header and call tcp_packet_init, which is modelled.
- chitcpd_free_socket_entry: destroying mutexes, condition variables, the pending-connection queue and the debug monitor is not modelled; only the effect on the two tables is.
- The close handler frees a passive socket with the corrected free (`ServerInfo.FreeSocketEntry`); the as-written free is modelled separately.
- chitcp_packet_list_destroy and chitcp_tcp_packet_free: memory management only.
- MultiTimer: the mt_* bodies in multitimer.c are stubs, so the table is modelled from the header's documented contract, without callbacks, real time or mt_set_timer_name; mt_free and the mt_chilog functions are left out too.
- MultiTimer.TimespecSubtract: an input with tv_nsec equal to SECOND is not normalised; the model states only the exact instant for it.
- The TCP state handlers of tcp.c are unwritten stubs. The model takes them as a parameter, `Handler`, and tcp_data_init, the connection to the peer daemon and chilog_tcp_data are left out.
- The tester's socket calls are parameters (`SocketApi`); a failing call ends the process (`ProcessExits`), and the thread hand-off with the tester is not modelled.
- Grade: scores are `real`, so Python's float rounding is not modelled. Whitespace is the set of 29 characters `str.isspace()` accepts, which is what `str.strip()` removes; this includes the ASCII controls 9-13 and 28-31 and the Unicode separators. argparse, the file-existence checks, the JSON decoding and the printed formatting are not modelled; the output is modelled as the data printed.
- Handlers: the ACCEPT, GET_SOCKET_STATE, GET_SOCKET_BUFFER_CONTENTS and DEBUG handlers are left out. They are the wait-and-copy and debug-monitor paths, not a validation table.

## Findings

| source | as written | input that shows it | evidently intended | confidence | as-written member | corrected member |
|---|---|---|---|---|---|---|
| src/chitcpd/serverinfo.c:249 | `find_ephemeral_port` keeps its result in a `uint16_t` initialised to -1, so an exhausted search returns 65535. The `port == -1` check of the connect handler (src/chitcpd/handlers.c:674) never fires, and CONNECT claims port 65535 from its holder | every port from ephemeral_port_start up to 65535 taken; then a CONNECT on a CLOSED socket | return -1 when no port is free, so that CONNECT replies EAGAIN | high (not executed) | ServerInfo.FindEphemeralPortAsWritten, Handlers.ConnectAsWritten, Handlers.ConnectExhausted | ServerInfo.FindEphemeralPort, Handlers.Connect |
| src/chitcpd/serverinfo.c:234-235 | The guard `port >= 0` on a `uint16_t` is always true. Freeing an entry whose local address was never set clears the port slot of get_addr_port's 65535 | a socket holds port 65535; another socket is put into LISTEN without a bind and then closed | clear a port slot only for an entry whose local address has a port | medium (not executed) | ServerInfo.FreeSocketEntryAsWritten, ServerInfo.FreeUnboundClearsPort65535 | ServerInfo.FreeSocketEntry |
| src/libchitcp/buffer.c:216-217 | peek_at compares `at` with seq_start and seq_end as plain unsigned integers, so once seq_end has wrapped past 2^32 every position is refused | a buffer with seq_start 0xFFFFFFFE holding 2 bytes; peek_at at 0xFFFFFFFF | compare in 32-bit sequence space, as the stream offset `at - seq_start` is computed | high (not executed) | CircularBuffer.PeekAtAsWritten, CircularBuffer.PeekAtWrapCounterexample | CircularBuffer.PeekAt |
| src/chitcpd/handlers.c:1324 | WAIT_FOR_STATE reads `chisocket_table[sockfd]` before checking that sockfd lies inside the table | sockfd equal to the table size (or negative) | check the range first and reply EBADF, as every other handler does | high (not executed) | Handlers.WaitForStateAsWritten, Handlers.WaitForStateOutOfRange | Handlers.WaitForState |
