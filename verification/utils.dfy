/**
 * The helpers of src/libchitcp/utils.c that carry logic: the Internet
 * checksum of section 1 of RFC 1071, computed as in the reference code of
 * section 4.1 of RFC 1071, and the table of TCP state names.
 */
module Utils {
  import opened Base
  import ByteOrder
  import ModArith

  // ------------------------------------------------------------ checksum

  /**
   * The sum of the data read as big-endian 16-bit words, a lone last byte
   * counting as the high byte of a word whose low byte is zero. The sum is
   * over the integers; the C accumulator is reduced modulo 2^32 separately.
   */
  function WordSum(d: seq<byte>): (r: nat)
    decreases |d|
  {
    if |d| == 0 then 0
    else if |d| == 1 then (d[0] as int) * 0x100
    else (d[0] as int) * 0x100 + d[1] + WordSum(d[2..])
  }

  /** Each word is at most 0xFFFF, so the sum is at most that many times the number of words. */
  lemma {:induction false} WordSumBound(d: seq<byte>)
    ensures WordSum(d) <= (|d| + 1) / 2 * 0xFFFF
    decreases |d|
  {
    if |d| > 1 {
      WordSumBound(d[2..]);
      assert (|d| + 1) / 2 == (|d| - 1) / 2 + 1;
    }
  }

  /** The sum of a concatenation whose first part has an even length is the sum of the sums. */
  lemma {:induction false} WordSumAppend(a: seq<byte>, b: seq<byte>)
    requires |a| % 2 == 0
    ensures WordSum(a + b) == WordSum(a) + WordSum(b)
    decreases |a|
  {
    if |a| > 0 {
      assert (a + b)[2..] == a[2..] + b;
      WordSumAppend(a[2..], b);
    } else {
      assert a + b == b;
    }
  }

  /** Padding an odd-length input with one zero byte does not change its sum. */
  lemma {:induction false} WordSumPadding(d: seq<byte>)
    requires |d| % 2 == 1
    ensures WordSum(d + [0]) == WordSum(d)
    decreases |d|
  {
    if |d| > 1 {
      assert (d + [0])[2..] == d[2..] + [0];
      WordSumPadding(d[2..]);
    }
  }

  /**
   * The ones'-complement (end-around-carry) value of a sum: the number in
   * 0..0xFFFF congruent to it modulo 0xFFFF, zero only for a zero sum.
   */
  function EndAroundCarry(s: nat): (r: uint16)
    ensures r == 0 <==> s == 0
    ensures r % 0xFFFF == s % 0xFFFF
  {
    if s == 0 then 0
    else
      ModArith.ModAddLeft(s - 1, 1, 0xFFFF);
      (s - 1) % 0xFFFF + 1
  }

  /** A value in 0..0xFFFF that is zero exactly when s is and is congruent to s is the end-around-carry value of s. */
  lemma CarryUnique(x: int, s: nat)
    requires 0 <= x <= 0xFFFF && (x == 0 <==> s == 0) && x % 0xFFFF == s % 0xFFFF
    ensures x == EndAroundCarry(s)
  {
    var e := EndAroundCarry(s);
    if s != 0 {
      if x == 0xFFFF || e == 0xFFFF {
        ModArith.ModSmall(x % 0xFFFF, 0xFFFF);
        assert x == e;
      } else {
        ModArith.ModSmall(x, 0xFFFF);
        ModArith.ModSmall(e, 0xFFFF);
      }
    }
  }

  /**
   * The carry-folding loop of cksum: while the sum does not fit in 16 bits,
   * the high half is added to the low half.
   */
  method FoldCarries(s: uint32) returns (r: uint16)
    ensures r == EndAroundCarry(s)
  {
    var sum: int := s;
    while sum > 0xFFFF
      invariant 0 <= sum <= s
      invariant sum == 0 <==> s == 0
      invariant sum % 0xFFFF == s % 0xFFFF
      decreases sum
    {
      var next := sum / 0x1_0000 + sum % 0x1_0000;
      assert sum == next + (sum / 0x1_0000) * 0xFFFF;
      ModArith.ModAddMultiple(next, sum / 0x1_0000, 0xFFFF);
      sum := next;
    }
    CarryUnique(sum, s);
    r := sum;
  }

  /**
   * cksum as a value. The accumulator is a uint32_t, so the word sum is
   * taken modulo 2^32 before the carries are folded; the folded sum is
   * complemented in 16 bits, byte-swapped by htons, and a zero result is
   * replaced by 0xFFFF.
   */
  function Checksum(data: seq<byte>): (r: uint16)
    ensures r != 0
    ensures var f := EndAroundCarry(WordSum(data) % UINT32_MOD);
      ByteOrder.Swap16(r) == (if f == 0xFFFF then 0xFFFF else 0xFFFF - f)
  {
    var f := EndAroundCarry(WordSum(data) % UINT32_MOD);
    var x := ByteOrder.Swap16(0xFFFF - f);
    ByteOrder.Swap16Involutive(0xFFFF - f);
    if x != 0 then x else 0xFFFF
  }

  /**
   * cksum: the word sum in its uint32_t accumulator, then the carry
   * folding, the complement and the byte swap. `len` is an int in C, so the
   * input is at most INT_MAX bytes long.
   */
  method Cksum(data: seq<byte>) returns (r: uint16)
    requires |data| <= INT32_MAX
    ensures r == Checksum(data)
  {
    var sum := SumWords(data);
    var folded := FoldCarries(sum);
    var swapped := ByteOrder.Swap16(0xFFFF - folded);
    r := if swapped != 0 then swapped else 0xFFFF;
  }

  /** The word loop of cksum and its odd last byte: the word sum modulo 2^32. */
  method SumWords(data: seq<byte>) returns (sum: uint32)
    ensures sum == WordSum(data) % UINT32_MOD
  {
    sum := 0;
    var i := 0;
    while |data| - i >= 2
      invariant 0 <= i <= |data|
      invariant (sum + WordSum(data[i..])) % UINT32_MOD == WordSum(data) % UINT32_MOD
    {
      SumStep(data, i, sum);
      sum := AddWord(sum, data[i], data[i + 1]);
      i := i + 2;
    }
    if |data| - i > 0 {
      SumLast(data, i, sum);
      sum := AddWord(sum, data[i], 0);
    } else {
      assert data[i..] == [];
      ModArith.ModSmall(sum, UINT32_MOD);
    }
  }

  /** One word added to the uint32_t accumulator. */
  function AddWord(sum: uint32, hi: byte, lo: byte): uint32 {
    (sum + (hi as int) * 0x100 + lo) % UINT32_MOD
  }

  /** One pass of cksum's word loop keeps the accumulator congruent to the sum of what is left. */
  lemma SumStep(data: seq<byte>, i: nat, sum: uint32)
    requires i + 2 <= |data|
    ensures (AddWord(sum, data[i], data[i + 1]) + WordSum(data[i + 2..])) % UINT32_MOD
      == (sum + WordSum(data[i..])) % UINT32_MOD
  {
    assert data[i..][2..] == data[i + 2..];
    ModArith.ModAddLeft(sum + (data[i] as int) * 0x100 + data[i + 1], WordSum(data[i + 2..]), UINT32_MOD);
  }

  /** The odd last byte, added as the high half of a word, completes the sum. */
  lemma SumLast(data: seq<byte>, i: nat, sum: uint32)
    requires i + 1 == |data|
    ensures AddWord(sum, data[i], 0) == (sum + WordSum(data[i..])) % UINT32_MOD
  {
  }

  /** The two bytes a little-endian host stores for a uint16_t, such as the checksum field of a header. */
  function StoredBytes(x: uint16): (r: seq<byte>)
    ensures |r| == 2 && ByteOrder.Decode16BE(r) == ByteOrder.Swap16(x)
  {
    [x % 0x100, x / 0x100]
  }

  /**
   * The receiver's check of section 1 of RFC 1071: appending the stored
   * checksum to even-length data and summing again yields the all-ones sum,
   * which cksum reports as 0xFFFF. The length bound keeps the uint32_t
   * accumulator from wrapping.
   */
  lemma CksumVerifies(data: seq<byte>)
    requires |data| % 2 == 0 && |data| < 0x1_0000
    ensures Checksum(data + StoredBytes(Checksum(data))) == 0xFFFF
  {
    var b := StoredBytes(Checksum(data));
    var s := WordSum(data);
    var v := ByteOrder.Swap16(Checksum(data));
    WordSumBound(data);
    assert s <= 0x8000 * 0xFFFF;
    ModArith.ModSmall(s, UINT32_MOD);
    WordSumAppend(data, b);
    assert WordSum(b) == v by {
      assert b[2..] == [];
    }
    ModArith.ModSmall(s + v, UINT32_MOD);
    ComplementCancels(s, v);
    AllOnesChecksum(data + b);
  }

  /** Adding the complement of a sum's end-around-carry value to it gives the all-ones value. */
  lemma ComplementCancels(s: nat, v: nat)
    requires var f := EndAroundCarry(s); v == (if f == 0xFFFF then 0xFFFF else 0xFFFF - f)
    ensures EndAroundCarry(s + v) == 0xFFFF
  {
    var f: int := EndAroundCarry(s);
    ModArith.ModAddLeft(s, v, 0xFFFF);
    ModArith.ModAddLeft(f, v, 0xFFFF);
    assert (s + v) % 0xFFFF == (f + v) % 0xFFFF;
    assert (f + v) % 0xFFFF == 0;
    CarryUnique(0xFFFF, s + v);
  }

  /** Data whose folded sum is all ones has the checksum 0xFFFF. */
  lemma AllOnesChecksum(d: seq<byte>)
    requires EndAroundCarry(WordSum(d) % UINT32_MOD) == 0xFFFF
    ensures Checksum(d) == 0xFFFF
  {
    ByteOrder.Swap16Involutive(Checksum(d));
  }

  // ------------------------------------------------------------ state names

  /** tcp_state_names, indexed by the value of tcp_state_t. */
  const TcpStateNames: seq<string> := [
    "CLOSED", "LISTEN", "SYN_RCVD", "SYN_SENT", "ESTABLISHED",
    "FIN_WAIT_1", "FIN_WAIT_2", "CLOSE_WAIT", "CLOSING", "TIME_WAIT", "LAST_ACK"]

  /** tcp_str: the table entry at the state's value. */
  function TcpStr(s: TcpState): (r: string)
    ensures r in TcpStateNames
  {
    TcpStateNames[StateIndex(s)]
  }

  /** The state a name denotes, read back from the table; None for any other string. */
  function StateNamed(name: string): (r: Option<TcpState>)
    ensures r.Some? <==> name in TcpStateNames
  {
    if name in TcpStateNames then StateNamedFrom(name, 0) else None
  }

  function StateNamedFrom(name: string, i: nat): (r: Option<TcpState>)
    requires i <= |TcpStateNames|
    ensures r.Some? <==> name in TcpStateNames[i..]
    ensures r.Some? ==> TcpStr(r.value) == name
    decreases |TcpStateNames| - i
  {
    if i == |TcpStateNames| then None
    else if TcpStateNames[i] == name then
      var s := StateOfIndex(i);
      Some(s.value)
    else
      assert TcpStateNames[i..] == [TcpStateNames[i]] + TcpStateNames[i + 1..];
      StateNamedFrom(name, i + 1)
  }

  /** Every state has its own name, and reading the name back gives the state. */
  lemma TcpStrRoundTrip(s: TcpState, t: TcpState)
    ensures StateNamed(TcpStr(s)) == Some(s)
    ensures TcpStr(s) == TcpStr(t) ==> s == t
  {
    StateIndexRoundTrip(s, t);
    var r := StateNamed(TcpStr(s));
    assert r.Some?;
    StateIndexRoundTrip(r.value, s);
    NamesDistinct(StateIndex(r.value), StateIndex(s));
    NamesDistinct(StateIndex(s), StateIndex(t));
  }

  lemma NamesDistinct(i: nat, j: nat)
    requires i < |TcpStateNames| && j < |TcpStateNames|
    ensures TcpStateNames[i] == TcpStateNames[j] ==> i == j
  {
  }
}
