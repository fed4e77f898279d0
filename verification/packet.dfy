/**
 * TCP packets as chiTCP builds and reads them: the raw bytes of a segment
 * (include/chitcp/packet.h, src/libchitcp/packet.c). The header is the fixed
 * 20-byte header of section 3.1 of RFC 9293; multi-byte fields are stored in
 * network order and read back with ntohs/ntohl, which the model takes on a
 * little-endian host.
 */
module Packet {
  import opened Base
  import ByteOrder

  /** TCP_HEADER_NOOPTIONS_SIZE, sizeof(tcphdr_t). */
  const TCP_HEADER_NOOPTIONS_SIZE: nat := 20
  /** size_t arithmetic wraps modulo 2^64. */
  const SIZE_MOD: int := 0x1_0000_0000_0000_0000

  type nibble = x: int | 0 <= x < 16
  /** A buffer whose length a size_t can hold. */
  type Bytes = s: seq<byte> | |s| < SIZE_MOD

  /** The eight one-bit control fields, FIN first as in the low bit of byte 13. */
  datatype TcpFlags = TcpFlags(fin: bool, syn: bool, rst: bool, psh: bool, ack: bool, urg: bool, ece: bool, cwr: bool)

  const NoTcpFlags := TcpFlags(false, false, false, false, false, false, false, false)

  function Bit(b: bool): nat {
    if b then 1 else 0
  }

  /** Byte 13 of the header: the bit-fields fin..cwr from the least significant bit up. */
  function FlagsByte(f: TcpFlags): (r: byte)
  {
    NibbleOf(f.fin, f.syn, f.rst, f.psh) + 16 * NibbleOf(f.ack, f.urg, f.ece, f.cwr)
  }

  /** Only the empty flag set gives a zero byte. */
  lemma FlagsByteZero(f: TcpFlags)
    ensures FlagsByte(f) == 0 <==> f == NoTcpFlags
  {
  }

  /** Four bits, the first the least significant. */
  function NibbleOf(b0: bool, b1: bool, b2: bool, b3: bool): (r: nat)
    ensures r < 16
  {
    Bit(b0) + 2 * Bit(b1) + 4 * Bit(b2) + 8 * Bit(b3)
  }

  /** The flag bits of a byte: the low nibble holds fin..psh, the high one ack..cwr. */
  function FlagsOfByte(b: byte): TcpFlags {
    var lo := b % 16;
    var hi := b / 16;
    TcpFlags(lo % 2 == 1, (lo / 2) % 2 == 1, (lo / 4) % 2 == 1, lo / 8 == 1,
             hi % 2 == 1, (hi / 2) % 2 == 1, (hi / 4) % 2 == 1, hi / 8 == 1)
  }

  /** The flag bits are read back as written. */
  lemma FlagsOfFlagsByte(f: TcpFlags)
    ensures FlagsOfByte(FlagsByte(f)) == f
  {
    var lo := NibbleOf(f.fin, f.syn, f.rst, f.psh);
    var hi := NibbleOf(f.ack, f.urg, f.ece, f.cwr);
    SplitByte(lo, hi);
    NibbleBits(f.fin, f.syn, f.rst, f.psh);
    NibbleBits(f.ack, f.urg, f.ece, f.cwr);
  }

  /** Every byte is the combination of the flags read from it. */
  lemma FlagsByteOfFlags(b: byte)
    ensures FlagsByte(FlagsOfByte(b)) == b
  {
    NibbleValue(b % 16);
    NibbleValue(b / 16);
  }

  lemma SplitByte(lo: int, hi: int)
    requires 0 <= lo < 16 && 0 <= hi
    ensures (lo + 16 * hi) % 16 == lo && (lo + 16 * hi) / 16 == hi
  {
  }

  lemma NibbleBits(b0: bool, b1: bool, b2: bool, b3: bool)
    ensures var n := NibbleOf(b0, b1, b2, b3);
      (n % 2 == 1) == b0 && ((n / 2) % 2 == 1) == b1 && ((n / 4) % 2 == 1) == b2 && (n / 8 == 1) == b3
  {
  }

  lemma NibbleValue(n: nat)
    requires n < 16
    ensures NibbleOf(n % 2 == 1, (n / 2) % 2 == 1, (n / 4) % 2 == 1, n / 8 == 1) == n
  {
  }

  /** tcphdr_t with every field in host byte order. */
  datatype TcpHeader = TcpHeader(
    source: uint16, dest: uint16, seqNo: uint32, ackSeq: uint32,
    doff: nibble, res1: nibble, flags: TcpFlags,
    win: uint16, sum: uint16, urp: uint16)

  /**
   * The 20 bytes of a header in memory. On a little-endian host the data
   * offset occupies the high nibble of byte 12 and res1 the low one, which is
   * the wire layout of section 3.1 of RFC 9293.
   */
  function EncodeHeader(h: TcpHeader): (r: seq<byte>)
    ensures |r| == TCP_HEADER_NOOPTIONS_SIZE
  {
    ByteOrder.Encode16BE(h.source) + ByteOrder.Encode16BE(h.dest)
      + ByteOrder.Encode32BE(h.seqNo) + ByteOrder.Encode32BE(h.ackSeq)
      + [h.doff * 16 + h.res1, FlagsByte(h.flags)]
      + ByteOrder.Encode16BE(h.win) + ByteOrder.Encode16BE(h.sum) + ByteOrder.Encode16BE(h.urp)
  }

  /** The header at the front of a buffer of at least 20 bytes. */
  function DecodeHeader(raw: seq<byte>): (r: TcpHeader)
    requires |raw| >= TCP_HEADER_NOOPTIONS_SIZE
  {
    TcpHeader(
      ByteOrder.Decode16BE(raw[0..2]), ByteOrder.Decode16BE(raw[2..4]),
      ByteOrder.Decode32BE(raw[4..8]), ByteOrder.Decode32BE(raw[8..12]),
      raw[12] / 16, raw[12] % 16, FlagsOfByte(raw[13]),
      ByteOrder.Decode16BE(raw[14..16]), ByteOrder.Decode16BE(raw[16..18]), ByteOrder.Decode16BE(raw[18..20]))
  }

  /** Where each field lies in the encoding. */
  lemma EncodeHeaderSlices(h: TcpHeader)
    ensures var r := EncodeHeader(h);
      && r[0..2] == ByteOrder.Encode16BE(h.source) && r[2..4] == ByteOrder.Encode16BE(h.dest)
      && r[4..8] == ByteOrder.Encode32BE(h.seqNo) && r[8..12] == ByteOrder.Encode32BE(h.ackSeq)
      && r[12] == h.doff * 16 + h.res1 && r[13] == FlagsByte(h.flags)
      && r[14..16] == ByteOrder.Encode16BE(h.win) && r[16..18] == ByteOrder.Encode16BE(h.sum)
      && r[18..20] == ByteOrder.Encode16BE(h.urp)
  {
  }

  /** Decoding an encoded header gives it back. */
  lemma DecodeEncodeHeader(h: TcpHeader)
    ensures DecodeHeader(EncodeHeader(h)) == h
  {
    var r := EncodeHeader(h);
    EncodeHeaderSlices(h);
    ByteOrder.Decode16BERoundTrip(h.source, r[0..2]);
    ByteOrder.Decode16BERoundTrip(h.dest, r[2..4]);
    ByteOrder.Decode32BERoundTrip(h.seqNo);
    ByteOrder.Decode32BERoundTrip(h.ackSeq);
    ByteOrder.Decode16BERoundTrip(h.win, r[14..16]);
    ByteOrder.Decode16BERoundTrip(h.sum, r[16..18]);
    ByteOrder.Decode16BERoundTrip(h.urp, r[18..20]);
    FlagsOfFlagsByte(h.flags);
    var d := DecodeHeader(r);
    assert d.doff == h.doff && d.res1 == h.res1;
  }

  /** Every 20 bytes are the encoding of the header decoded from them. */
  lemma EncodeDecodeHeader(raw: seq<byte>)
    requires |raw| >= TCP_HEADER_NOOPTIONS_SIZE
    ensures EncodeHeader(DecodeHeader(raw)) == raw[..TCP_HEADER_NOOPTIONS_SIZE]
  {
    var h := DecodeHeader(raw);
    ByteOrder.Decode16BERoundTrip(0, raw[0..2]);
    ByteOrder.Decode16BERoundTrip(0, raw[2..4]);
    ByteOrder.Encode32BERoundTrip(raw[4..8]);
    ByteOrder.Encode32BERoundTrip(raw[8..12]);
    ByteOrder.Decode16BERoundTrip(0, raw[14..16]);
    ByteOrder.Decode16BERoundTrip(0, raw[16..18]);
    ByteOrder.Decode16BERoundTrip(0, raw[18..20]);
    FlagsByteOfFlags(raw[13]);
    assert raw[..20] == raw[0..2] + raw[2..4] + raw[4..8] + raw[8..12] + [raw[12], raw[13]]
      + raw[14..16] + raw[16..18] + raw[18..20];
  }

  // ------------------------------------------------------------ packets

  /** tcp_packet_t: the raw bytes; `length` is their number. */
  datatype TcpPacket = TcpPacket(raw: Bytes)
  {
    function Length(): nat {
      |raw|
    }
  }

  /**
   * chitcp_tcp_packet_init: a zeroed header whose data offset is 5 (no
   * options), followed by a copy of the payload; the packet length is
   * returned. payload_len is a uint16_t.
   */
  function TcpPacketInit(payload: seq<byte>): (r: (TcpPacket, int))
    requires |payload| < UINT16_MOD
    ensures r.1 == r.0.Length() == TCP_HEADER_NOOPTIONS_SIZE + |payload|
    ensures DecodeHeader(r.0.raw) == InitialHeader
  {
    var raw: Bytes := InitialHeaderBytes + payload;
    assert raw[..TCP_HEADER_NOOPTIONS_SIZE] == InitialHeaderBytes;
    HeaderOfPrefix(raw, InitialHeaderBytes);
    InitialHeaderDecodes();
    (TcpPacket(raw), |raw|)
  }

  /** The header chitcp_tcp_packet_init writes: all zero but a data offset of 5 words. */
  const InitialHeader := TcpHeader(0, 0, 0, 0, 5, 0, NoTcpFlags, 0, 0, 0)

  /** Its bytes, as calloc and the doff bit-field leave them. */
  const InitialHeaderBytes: seq<byte> := [0, 0, 0, 0, 0, 0, 0, 0, 0, 0, 0, 0, 0x50, 0, 0, 0, 0, 0, 0, 0]

  /** Those bytes are the encoding of that header. */
  lemma InitialHeaderEncoding()
    ensures EncodeHeader(InitialHeader) == InitialHeaderBytes
  {
    InitialHeaderDecodes();
    EncodeDecodeHeader(InitialHeaderBytes);
    assert InitialHeaderBytes[..TCP_HEADER_NOOPTIONS_SIZE] == InitialHeaderBytes;
  }

  lemma InitialHeaderDecodes()
    ensures DecodeHeader(InitialHeaderBytes) == InitialHeader
  {
    var b := InitialHeaderBytes;
    assert b[0..2] == [0, 0] && b[2..4] == [0, 0] && b[14..16] == [0, 0] && b[16..18] == [0, 0] && b[18..20] == [0, 0];
    assert b[4..8] == [0, 0, 0, 0] && b[8..12] == [0, 0, 0, 0];
    assert FlagsOfByte(0) == NoTcpFlags;
  }

  /** The header is read from the first 20 bytes only, whatever follows them. */
  lemma DecodeBeforePayload(h: TcpHeader, payload: seq<byte>)
    ensures DecodeHeader(EncodeHeader(h) + payload) == h
  {
    var raw := EncodeHeader(h) + payload;
    DecodeEncodeHeader(h);
    assert raw[..TCP_HEADER_NOOPTIONS_SIZE] == EncodeHeader(h);
    HeaderOfPrefix(raw, EncodeHeader(h));
  }

  lemma HeaderOfPrefix(raw: seq<byte>, prefix: seq<byte>)
    requires |raw| >= TCP_HEADER_NOOPTIONS_SIZE && prefix == raw[..TCP_HEADER_NOOPTIONS_SIZE]
    ensures DecodeHeader(prefix) == DecodeHeader(raw)
  {
  }

  /** TCP_PACKET_HEADER(p)->doff: the high nibble of byte 12. */
  function Doff(p: TcpPacket): (r: nibble)
    requires p.Length() >= TCP_HEADER_NOOPTIONS_SIZE
    ensures r == DecodeHeader(p.raw).doff
  {
    p.raw[12] / 16
  }

  /**
   * TCP_PAYLOAD_LEN: the length minus four bytes per header word, computed
   * in size_t, so a data offset beyond the packet wraps around.
   */
  function PayloadLen(p: TcpPacket): (r: int)
    requires p.Length() >= TCP_HEADER_NOOPTIONS_SIZE
    ensures 0 <= r < SIZE_MOD
    ensures 4 * Doff(p) <= p.Length() ==> r == p.Length() - 4 * Doff(p)
    ensures (r - (p.Length() - 4 * Doff(p))) % SIZE_MOD == 0
  {
    var d := p.Length() - 4 * Doff(p);
    if d >= 0 then d else d + SIZE_MOD
  }

  /** TCP_PAYLOAD_START: the bytes from offset 4 * doff on. */
  function Payload(p: TcpPacket): (r: seq<byte>)
    requires p.Length() >= TCP_HEADER_NOOPTIONS_SIZE && 4 * Doff(p) <= p.Length()
    ensures |r| == PayloadLen(p)
  {
    p.raw[4 * Doff(p)..]
  }

  /** A packet built by chitcp_tcp_packet_init carries the payload it was given, right after the header. */
  lemma TcpPacketInitPayload(payload: seq<byte>)
    requires |payload| < UINT16_MOD
    ensures var p := TcpPacketInit(payload).0;
      && 4 * Doff(p) == TCP_HEADER_NOOPTIONS_SIZE
      && PayloadLen(p) == |payload|
      && Payload(p) == payload
      && SegLen(p) == |payload|
  {
    var p := TcpPacketInit(payload).0;
    assert p.raw == InitialHeaderBytes + payload;
    assert Doff(p) == 5;
    assert PayloadLen(p) == |payload|;
    assert p.raw[20..] == payload;
  }

  /** The field as it lies in memory: the two bytes loaded as a little-endian uint16_t. */
  function Load16(b: seq<byte>): (r: uint16)
    requires |b| == 2
  {
    b[0] + (b[1] as int) * 0x100
  }

  /** SEG_SEQ: ntohl of the stored sequence number. */
  function SegSeq(p: TcpPacket): (r: uint32)
    requires p.Length() >= TCP_HEADER_NOOPTIONS_SIZE
    ensures r == DecodeHeader(p.raw).seqNo
  {
    NtohlOfLoad(p.raw[4..8]);
    ByteOrder.Swap32(ByteOrder.Decode32LE(p.raw[4..8]))
  }

  /** SEG_ACK: ntohl of the stored acknowledgment number. */
  function SegAck(p: TcpPacket): (r: uint32)
    requires p.Length() >= TCP_HEADER_NOOPTIONS_SIZE
    ensures r == DecodeHeader(p.raw).ackSeq
  {
    NtohlOfLoad(p.raw[8..12]);
    ByteOrder.Swap32(ByteOrder.Decode32LE(p.raw[8..12]))
  }

  /** SEG_WND: ntohs of the stored window. */
  function SegWnd(p: TcpPacket): (r: uint16)
    requires p.Length() >= TCP_HEADER_NOOPTIONS_SIZE
    ensures r == DecodeHeader(p.raw).win
  {
    ByteOrder.Swap16(Load16(p.raw[14..16]))
  }

  /** SEG_UP: ntohs of the stored urgent pointer. */
  function SegUp(p: TcpPacket): (r: uint16)
    requires p.Length() >= TCP_HEADER_NOOPTIONS_SIZE
    ensures r == DecodeHeader(p.raw).urp
  {
    ByteOrder.Swap16(Load16(p.raw[18..20]))
  }

  /**
   * SEG_LEN: the payload length plus one for SYN and one for FIN, which each
   * occupy a sequence number (sections 3.3.1 and 3.4 of RFC 9293). The sum is
   * a size_t.
   */
  function SegLen(p: TcpPacket): (r: int)
    requires p.Length() >= TCP_HEADER_NOOPTIONS_SIZE
    ensures 0 <= r < SIZE_MOD
    ensures 4 * Doff(p) <= p.Length() < SIZE_MOD - 2 ==>
      var h := DecodeHeader(p.raw);
      r == Bit(h.flags.syn) + Bit(h.flags.fin) + p.Length() - 4 * h.doff
  {
    var h := DecodeHeader(p.raw);
    var n := Bit(h.flags.syn) + Bit(h.flags.fin) + PayloadLen(p);
    if n < SIZE_MOD then n else n - SIZE_MOD
  }

  /** ntohl applied to a word loaded from memory reads the four bytes most significant first. */
  lemma NtohlOfLoad(b: seq<byte>)
    requires |b| == 4
    ensures ByteOrder.Swap32(ByteOrder.Decode32LE(b)) == ByteOrder.Decode32BE(b)
  {
    var rev := [b[3], b[2], b[1], b[0]];
    assert ByteOrder.Decode32LE(b) == ByteOrder.Decode32BE(rev);
    ByteOrder.Encode32BERoundTrip(rev);
  }

  /** A header written field by field and read back with the SEG_* macros gives the fields. */
  lemma SegFieldsOfHeader(h: TcpHeader, payload: seq<byte>)
    requires 4 * h.doff <= TCP_HEADER_NOOPTIONS_SIZE + |payload| && |payload| < UINT16_MOD
    ensures var p := TcpPacket(EncodeHeader(h) + payload);
      && SegSeq(p) == h.seqNo && SegAck(p) == h.ackSeq
      && SegWnd(p) == h.win && SegUp(p) == h.urp
      && SegLen(p) == Bit(h.flags.syn) + Bit(h.flags.fin) + TCP_HEADER_NOOPTIONS_SIZE + |payload| - 4 * h.doff
  {
    DecodeBeforePayload(h, payload);
  }

  // ------------------------------------------------------------ chiTCP header

  /** chitcp_proto_t. */
  const CHITCP_PROTO_TCP: byte := 1
  const CHITCP_PROTO_RAW: byte := 2
  /** sizeof(chitcphdr_t). */
  const CHITCP_HEADER_SIZE: nat := 16

  /** chitcphdr_t in host order; the three reserved words are zero when sent. */
  datatype ChitcpHeader = ChitcpHeader(payloadLen: uint16, proto: byte, flags: byte)

  /** The 16 bytes of a chiTCP header: payload_len in network order, proto, flags, twelve reserved bytes. */
  function EncodeChitcpHeader(h: ChitcpHeader): (r: seq<byte>)
    ensures |r| == CHITCP_HEADER_SIZE
    ensures forall i :: 4 <= i < CHITCP_HEADER_SIZE ==> r[i] == 0
  {
    ByteOrder.Encode16BE(h.payloadLen) + [h.proto, h.flags] + seq(12, _ => 0)
  }

  /** The fields a receiver reads, with payload_len converted by ntohs. */
  function DecodeChitcpHeader(b: seq<byte>): (r: ChitcpHeader)
    requires |b| >= CHITCP_HEADER_SIZE
  {
    ChitcpHeader(ByteOrder.Swap16(Load16(b[0..2])), b[2], b[3])
  }

  /** A chiTCP header is read back as written. */
  lemma ChitcpHeaderRoundTrip(h: ChitcpHeader)
    ensures DecodeChitcpHeader(EncodeChitcpHeader(h)) == h
  {
    var b := EncodeChitcpHeader(h);
    assert b[0..2] == ByteOrder.Encode16BE(h.payloadLen);
  }

  // ------------------------------------------------------------ packet lists

  /** chitcp_packet_list_prepend: the packet becomes the new head. */
  function Prepend(l: seq<TcpPacket>, p: TcpPacket): (r: seq<TcpPacket>)
    ensures |r| == |l| + 1 && r[0] == p && r[1..] == l
  {
    [p] + l
  }

  /** chitcp_packet_list_append: the packet becomes the new tail. */
  function Append(l: seq<TcpPacket>, p: TcpPacket): (r: seq<TcpPacket>)
    ensures |r| == |l| + 1 && r[|l|] == p && r[..|l|] == l
  {
    l + [p]
  }

  /** chitcp_packet_list_pop_head: the head is removed (the C code requires a non-empty list). */
  function PopHead(l: seq<TcpPacket>): (r: seq<TcpPacket>)
    requires |l| > 0
    ensures |r| == |l| - 1
    ensures forall i :: 0 <= i < |r| ==> r[i] == l[i + 1]
  {
    l[1..]
  }

  /** chitcp_packet_list_size: DL_COUNT walks the list and counts its nodes. */
  method Size(l: seq<TcpPacket>) returns (count: int)
    ensures count == |l|
  {
    count := 0;
    var rest := l;
    while rest != []
      invariant count + |rest| == |l|
    {
      rest := rest[1..];
      count := count + 1;
    }
  }

  /** Popping the head undoes a prepend; on a non-empty list it commutes with an append (the list is a FIFO queue). */
  lemma ListQueue(l: seq<TcpPacket>, p: TcpPacket)
    ensures PopHead(Prepend(l, p)) == l
    ensures |l| > 0 ==> PopHead(Append(l, p)) == Append(PopHead(l), p)
    ensures |l| == 0 ==> Append(l, p)[0] == p && PopHead(Append(l, p)) == []
  {
    if |l| > 0 {
      assert PopHead(Append(l, p)) == l[1..] + [p];
    }
  }
}
