/**
 * Byte order. chiTCP keeps header fields in network (big-endian) order and
 * converts them with htons/ntohs/htonl/ntohl; the model assumes a
 * little-endian host, on which each of these reverses the bytes of its
 * argument.
 */
module ByteOrder {
  import opened Base

  /** htons and ntohs on a little-endian host. */
  function Swap16(x: uint16): (r: uint16)
    ensures r % 0x100 == x / 0x100 && r / 0x100 == x % 0x100
  {
    (x % 0x100) * 0x100 + x / 0x100
  }

  /** htonl and ntohl on a little-endian host: the four bytes in reverse order. */
  function Swap32(x: uint32): (r: uint32)
    ensures var b := Encode32BE(x); Encode32BE(r) == [b[3], b[2], b[1], b[0]]
  {
    var b := Encode32BE(x);
    Encode32BEOfDigits(b[3], b[2], b[1], b[0]);
    Decode32LE(b)
  }

  /** Swapping the bytes twice gives back the original value. */
  lemma Swap16Involutive(x: uint16)
    ensures Swap16(Swap16(x)) == x
  {
  }

  /** Swapping the bytes of a 32-bit word twice gives back the original value. */
  lemma Swap32Involutive(x: uint32)
    ensures Swap32(Swap32(x)) == x
  {
    Decode32BERoundTrip(x);
  }

  /** The two bytes of a 16-bit value, most significant first. */
  function Encode16BE(x: uint16): (r: seq<byte>)
    ensures |r| == 2
  {
    [x / 0x100, x % 0x100]
  }

  function Decode16BE(b: seq<byte>): (r: uint16)
    requires |b| == 2
  {
    (b[0] as int) * 0x100 + b[1]
  }

  /** The 16-bit encoding and decoding are inverse to each other. */
  lemma Decode16BERoundTrip(x: uint16, b: seq<byte>)
    requires |b| == 2
    ensures Decode16BE(Encode16BE(x)) == x
    ensures Encode16BE(Decode16BE(b)) == b
  {
  }

  /** The four bytes of a 32-bit value, most significant first. */
  function Encode32BE(x: uint32): (r: seq<byte>)
    ensures |r| == 4
  {
    [x / 0x100_0000, (x / 0x1_0000) % 0x100, (x / 0x100) % 0x100, x % 0x100]
  }

  function Decode32BE(b: seq<byte>): (r: uint32)
    requires |b| == 4
  {
    (b[0] as int) * 0x100_0000 + (b[1] as int) * 0x1_0000 + (b[2] as int) * 0x100 + b[3]
  }

  /** The same four bytes read with the least significant byte first. */
  function Decode32LE(b: seq<byte>): (r: uint32)
    requires |b| == 4
  {
    (b[3] as int) * 0x100_0000 + (b[2] as int) * 0x1_0000 + (b[1] as int) * 0x100 + b[0]
  }

  /** Encoding a value built from four digits gives those digits back. */
  lemma Encode32BEOfDigits(a: byte, b: byte, c: byte, d: byte)
    ensures Encode32BE(a * 0x100_0000 + b * 0x1_0000 + c * 0x100 + d) == [a, b, c, d]
  {
    var x := a * 0x100_0000 + b * 0x1_0000 + c * 0x100 + d;
    assert x / 0x100 == a * 0x1_0000 + b * 0x100 + c;
    assert x / 0x1_0000 == a * 0x100 + b;
    assert x / 0x100_0000 == a;
  }

  /** Decoding undoes encoding in both directions. */
  lemma Decode32BERoundTrip(x: uint32)
    ensures Decode32BE(Encode32BE(x)) == x
  {
    var q1 := x / 0x100;
    var q2 := q1 / 0x100;
    var q3 := q2 / 0x100;
    assert x == q1 * 0x100 + x % 0x100;
    assert q1 == q2 * 0x100 + q1 % 0x100;
    assert q2 == q3 * 0x100 + q2 % 0x100;
    assert q2 == x / 0x1_0000;
    assert q3 == x / 0x100_0000;
  }

  lemma Encode32BERoundTrip(b: seq<byte>)
    requires |b| == 4
    ensures Encode32BE(Decode32BE(b)) == b
  {
    Encode32BEOfDigits(b[0], b[1], b[2], b[3]);
  }

  /** Two 4-byte strings load to the same little-endian word only if they are equal. */
  lemma Decode32LEInjective(a: seq<byte>, b: seq<byte>)
    requires |a| == 4 && |b| == 4
    ensures Decode32LE(a) == Decode32LE(b) <==> a == b
  {
    if Decode32LE(a) == Decode32LE(b) {
      var ra, rb := [a[3], a[2], a[1], a[0]], [b[3], b[2], b[1], b[0]];
      assert Decode32BE(ra) == Decode32LE(a) && Decode32BE(rb) == Decode32LE(b);
      Encode32BERoundTrip(ra);
      Encode32BERoundTrip(rb);
      assert ra == rb;
    }
  }
}
