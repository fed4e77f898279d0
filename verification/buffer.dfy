/**
 * The circular buffer of chiTCP (include/chitcp/buffer.h, src/libchitcp/buffer.c):
 * a fixed-capacity byte queue that also tracks the TCP sequence numbers of the
 * bytes it holds. Each socket has one as its send buffer and one as its
 * receive buffer.
 *
 * The model keeps the concrete representation (the array, `start`, `end`,
 * `count` and the sequence counters) and relates it to the abstract queue
 * `Contents(b)`: byte i of the queue lives at `data[(start + i) % maxsize]`
 * and has sequence number `seq_start + i` (mod 2^32).
 *
 * The mutex and condition variables are not modelled. Where the C code would
 * sleep on a condition variable, the model returns an outcome saying so; after
 * the wake-up the C code re-evaluates the same conditions on the new state, so
 * the continuation is a fresh call on whatever state the other thread left.
 */
module CircularBuffer {
  import opened Base
  import opened ModArith

  datatype Buffer = Buffer(
    data: seq<byte>,
    start: uint32,
    end: uint32,
    count: uint32,
    seqInitial: uint32,
    seqStart: uint32,
    seqEnd: uint32,
    maxsize: uint32,
    closed: bool)

  /**
   * The representation invariant. `start` and `end` may equal `maxsize` (a copy
   * that ends exactly at the last cell leaves them there), so they are compared
   * modulo `maxsize`. The capacity is bounded by INT_MAX because every count the
   * buffer reports is returned as a C `int`.
   */
  predicate Valid(b: Buffer) {
    && |b.data| == b.maxsize
    && b.maxsize <= INT32_MAX
    && b.start <= b.maxsize && b.end <= b.maxsize && b.count <= b.maxsize
    && (b.maxsize > 0 ==> (b.start + b.count) % b.maxsize == b.end % b.maxsize)
    && Sub32(b.seqEnd, b.seqStart) == b.count
  }

  /** The queue the buffer represents, oldest byte first. */
  function Contents(b: Buffer): (r: seq<byte>)
    requires Valid(b)
    ensures |r| == b.count
  {
    seq(b.count, i requires 0 <= i < b.count => b.data[(b.start + i) % b.maxsize])
  }

  /** The sequence number of byte i of the queue. */
  function SeqOf(b: Buffer, i: nat): uint32 {
    Add32(b.seqStart, i)
  }

  /**
   * circular_buffer_init. malloc leaves the array uninitialised, so its initial
   * contents are a parameter.
   */
  function Init(maxsize: uint32, garbage: seq<byte>): (r: Buffer)
    requires |garbage| == maxsize
    ensures maxsize <= INT32_MAX ==> Valid(r)
    ensures maxsize <= INT32_MAX ==> Contents(r) == []
    ensures r.maxsize == maxsize && !r.closed
    ensures r.seqStart == 0 && r.seqEnd == 0
  {
    Buffer(garbage, 0, 0, 0, 0, 0, 0, maxsize, false)
  }

  /**
   * circular_buffer_set_seq_initial. The C code sets `seq_end` from `end`
   * rather than from `count`; the two agree on a buffer that has never wrapped,
   * such as a freshly initialised one, which is where chiTCP calls it.
   */
  function SetSeqInitial(b: Buffer, s: uint32): (r: Buffer)
    ensures r.seqInitial == s && r.seqStart == s
    ensures r.data == b.data && r.start == b.start && r.count == b.count && r.closed == b.closed
  {
    b.(seqInitial := s, seqStart := s, seqEnd := Add32(s, b.end))
  }

  /** On a buffer that has never wrapped, the queue keeps its bytes and is numbered from s. */
  lemma SetSeqInitialNumbers(b: Buffer, s: uint32)
    requires Valid(b) && b.end == b.count
    ensures Valid(SetSeqInitial(b, s)) && Contents(SetSeqInitial(b, s)) == Contents(b)
    ensures First(SetSeqInitial(b, s)) == ToInt32(s)
    ensures Next(SetSeqInitial(b, s)) == ToInt32(Add32(s, b.count))
  {
    Sub32OfAdd(s, b.end);
    var nb := SetSeqInitial(b, s);
    assert Valid(nb);
    assert Contents(nb) == Contents(b);
  }

  /** Stepping n forward from a and measuring the distance back to a gives n. */
  lemma Sub32OfAdd(a: uint32, n: nat)
    requires n < UINT32_MOD
    ensures Sub32(Add32(a, n), a) == n
  {
    if a + n < UINT32_MOD {
      ModSmall(a + n, UINT32_MOD);
    } else {
      ModOnce(a + n, UINT32_MOD);
    }
  }

  // ---------------------------------------------------------------- memcpy

  /** memcpy(dst + at, src, |src|) on an array modelled as a sequence. */
  function MemCpy(dst: seq<byte>, at: nat, src: seq<byte>): (r: seq<byte>)
    requires at + |src| <= |dst|
    ensures |r| == |dst|
  {
    seq(|dst|, j requires 0 <= j < |dst| => if at <= j < at + |src| then src[j - at] else dst[j])
  }

  // ---------------------------------------------------------------- write

  /**
   * One pass of the copy loop in circular_buffer_write: `chunk` goes in at
   * `end`, split in two when it runs past the last cell.
   */
  function Store(b: Buffer, chunk: seq<byte>): (r: Buffer)
    requires Valid(b) && |chunk| <= b.maxsize - b.count
  {
    var k := |chunk|;
    var stored :=
      if b.end + k > b.maxsize then
        var toMax := b.maxsize - b.end;
        b.(data := MemCpy(MemCpy(b.data, b.end, chunk[..toMax]), 0, chunk[toMax..]), end := k - toMax)
      else
        b.(data := MemCpy(b.data, b.end, chunk), end := b.end + k);
    stored.(count := b.count + k, seqEnd := Add32(b.seqEnd, k))
  }

  /** Cell p is overwritten exactly when it lies within |chunk| cells after `end`. */
  lemma StoreCell(b: Buffer, chunk: seq<byte>, p: int)
    requires Valid(b) && |chunk| <= b.maxsize - b.count && 0 <= p < b.maxsize
    ensures var d := (p - b.end) % b.maxsize;
      Store(b, chunk).data[p] == if d < |chunk| then chunk[d] else b.data[p]
  {
    var m, k, e := b.maxsize, |chunk|, b.end;
    if p >= e {
      ModSmall(p - e, m);
    } else {
      ModUnique(p - e, -1, p - e + m, m);
    }
  }

  /** The cell of queue position i lies (i - count) mod maxsize cells after `end`. */
  lemma DistanceFromEnd(b: Buffer, i: int)
    requires Valid(b) && b.maxsize > 0
    ensures ((b.start + i) % b.maxsize - b.end) % b.maxsize == (i - b.count) % b.maxsize
  {
    var m := b.maxsize;
    ModSubLeft(b.start + i, b.end, m);
    ModSubRight(b.start + i, b.end, m);
    ModSubRight(b.start + i, b.start + b.count, m);
  }

  /** Advancing both ends of the queue by k keeps them congruent. */
  lemma AdvanceEnd(start: int, count: int, end: int, k: int, m: int)
    requires m > 0 && (start + count) % m == end % m
    ensures (start + count + k) % m == (end + k) % m
    ensures (start + count + k) % m == (end + k - m) % m
  {
    ModAddLeft(start + count, k, m);
    ModAddLeft(end, k, m);
    ModAddMultiple(end + k - m, 1, m);
  }

  /** Advancing one end of the sequence window by k lengthens it by k. */
  lemma AdvanceSeq(seqEnd: uint32, seqStart: uint32, count: int, k: nat)
    requires Sub32(seqEnd, seqStart) == count && count + k < UINT32_MOD
    ensures Sub32(Add32(seqEnd, k), seqStart) == count + k
  {
    ModSubLeft(seqEnd + k, seqStart, UINT32_MOD);
    ModAddLeft(seqEnd - seqStart, k, UINT32_MOD);
  }

  /** Store keeps the representation invariant and extends the sequence window by |chunk|. */
  lemma StoreValid(b: Buffer, chunk: seq<byte>)
    requires Valid(b) && |chunk| <= b.maxsize - b.count
    ensures Valid(Store(b, chunk))
    ensures Store(b, chunk).seqEnd == Add32(b.seqEnd, |chunk|)
  {
    var r, m, k := Store(b, chunk), b.maxsize, |chunk|;
    var e := r.end;
    assert r.start == b.start && r.count == b.count + k && |r.data| == m && r.maxsize == m;
    assert e == b.end + k || e == b.end + k - m;
    if m > 0 {
      AdvanceEnd(b.start, b.count, b.end, k, m);
      assert (r.start + r.count) % m == e % m;
    }
    AdvanceSeq(b.seqEnd, b.seqStart, b.count, k);
  }

  /** The cell of queue position i holds the old byte there, or the chunk's byte past the old end. */
  lemma StoreQueueCell(b: Buffer, chunk: seq<byte>, i: int)
    requires Valid(b) && |chunk| <= b.maxsize - b.count && 0 <= i < b.count + |chunk|
    ensures Store(b, chunk).data[(b.start + i) % b.maxsize]
      == if i < b.count then b.data[(b.start + i) % b.maxsize] else chunk[i - b.count]
  {
    var m := b.maxsize;
    StoreCell(b, chunk, (b.start + i) % m);
    DistanceFromEnd(b, i);
    if i < b.count {
      ModUnique(i - b.count, -1, i - b.count + m, m);
    } else {
      ModSmall(i - b.count, m);
    }
  }

  /** Store appends the chunk to the queue. */
  lemma {:induction false} StoreAppends(b: Buffer, chunk: seq<byte>)
    requires Valid(b) && |chunk| <= b.maxsize - b.count
    ensures Valid(Store(b, chunk))
    ensures Contents(Store(b, chunk)) == Contents(b) + chunk
    ensures Store(b, chunk).seqEnd == Add32(b.seqEnd, |chunk|)
  {
    StoreValid(b, chunk);
    var r := Store(b, chunk);
    forall i | 0 <= i < b.count + |chunk|
      ensures Contents(r)[i] == (Contents(b) + chunk)[i]
    {
      StoreQueueCell(b, chunk, i);
    }
  }

  datatype WriteResult =
    | WriteFailed(code: int)
      /** The call returned `ret`, the number of bytes now in the queue. */
    | Wrote(buf: Buffer, ret: int)
      /** `written` bytes went in and the caller now sleeps until space frees up. */
    | WroteThenBlocked(buf: Buffer, written: int)

  /**
   * circular_buffer_write. The capacity check adds two uint32_t values and so
   * wraps modulo 2^32 as in C; a write larger than the capacity is cut down to
   * the capacity; a closed buffer accepts nothing.
   */
  function Write(b: Buffer, src: seq<byte>, blocking: bool): (r: WriteResult)
    requires Valid(b) && |src| < UINT32_MOD
    ensures r.WriteFailed? <==> |src| == 0 || (Add32(b.count, |src|) > b.maxsize && !blocking)
    ensures r.WriteFailed? ==> r.code == (if |src| == 0 then CHITCP_EINVAL else CHITCP_EWOULDBLOCK)
    ensures r.Wrote? ==> Valid(r.buf) && r.ret == (if b.closed then 0 else Min(|src|, b.maxsize))
    ensures r.Wrote? ==> Contents(r.buf) == Contents(b) + src[..r.ret]
    ensures r.WroteThenBlocked? ==>
      && Valid(r.buf) && 0 <= r.written < Min(|src|, b.maxsize)
      && Contents(r.buf) == Contents(b) + src[..r.written]
      && r.buf.count == r.buf.maxsize
    ensures !r.WriteFailed? ==>
      r.buf.maxsize == b.maxsize && r.buf.closed == b.closed && r.buf.seqStart == b.seqStart
  {
    var len := |src|;
    if len == 0 then WriteFailed(CHITCP_EINVAL)
    else if Add32(b.count, len) > b.maxsize && !blocking then WriteFailed(CHITCP_EWOULDBLOCK)
    else
      var n := Min(len, b.maxsize);
      if n == 0 then Wrote(b, 0)
      else if b.count == b.maxsize then WroteThenBlocked(b, 0)
      else if b.closed then Wrote(b, 0)
      else
        var towrite := Min(n, b.maxsize - b.count);
        StoreAppends(b, src[..towrite]);
        var nb := Store(b, src[..towrite]);
        if towrite < n then WroteThenBlocked(nb, towrite) else Wrote(nb, towrite)
  }

  /** A non-blocking write that fits goes in whole, and one that does not fit is refused. */
  lemma WriteNonBlocking(b: Buffer, src: seq<byte>)
    requires Valid(b) && !b.closed && 0 < |src| < UINT32_MOD - b.maxsize
    ensures b.count + |src| <= b.maxsize ==>
      Write(b, src, false).Wrote? && Write(b, src, false).ret == |src|
      && Contents(Write(b, src, false).buf) == Contents(b) + src
    ensures b.count + |src| > b.maxsize ==> Write(b, src, false) == WriteFailed(CHITCP_EWOULDBLOCK)
  {
    assert Add32(b.count, |src|) == b.count + |src|;
    if b.count + |src| <= b.maxsize {
      assert Min(|src|, b.maxsize) == |src| && Min(|src|, b.maxsize - b.count) == |src|;
      assert src[..|src|] == src;
      StoreAppends(b, src);
    }
  }

  // ---------------------------------------------------------------- read

  datatype ReadResult =
    | ReadFailed(code: int)
      /** The call returned `ret` after copying `bytes` out. */
    | ReadDone(buf: Buffer, bytes: seq<byte>, ret: int)
      /** The caller sleeps until a byte arrives or the buffer is closed. */
    | ReadWaits

  /** The bytes the copy in __circular_buffer_read takes out, from cell s on. */
  function CopyOut(b: Buffer, s: nat, toread: nat): (r: seq<byte>)
    requires |b.data| == b.maxsize && s < b.maxsize && toread <= b.maxsize
  {
    if s + toread > b.maxsize then b.data[s..] + b.data[..toread - (b.maxsize - s)]
    else b.data[s..s + toread]
  }

  /** The copy reads the cells that follow s, wrapping at the end of the array. */
  lemma CopyOutCells(b: Buffer, s: nat, toread: nat, k: nat)
    requires |b.data| == b.maxsize && s < b.maxsize && toread <= b.maxsize && k < toread
    ensures CopyOut(b, s, toread)[k] == b.data[(s + k) % b.maxsize]
  {
    if s + k < b.maxsize {
      ModSmall(s + k, b.maxsize);
    } else {
      ModOnce(s + k, b.maxsize);
    }
  }

  /**
   * __circular_buffer_read: copy up to `len` bytes starting `offset` bytes into
   * the queue; unless peeking, remove them. Reads and peeks pass offset 0;
   * peek_at passes an offset inside the queue.
   */
  function ReadInternal(b: Buffer, len: uint32, offset: uint32, blocking: bool, peeking: bool): (r: ReadResult)
    requires Valid(b)
    requires offset == 0 || offset < b.count
    requires !peeking ==> offset == 0
    ensures r.ReadFailed? <==> len == 0 || (b.count == 0 && !blocking)
    ensures r.ReadFailed? ==> r.code == (if len == 0 then CHITCP_EINVAL else CHITCP_EWOULDBLOCK)
    ensures r.ReadWaits? <==> len > 0 && b.count == 0 && blocking && !b.closed
    ensures r.ReadDone? ==>
      && Valid(r.buf)
      && r.ret == |r.bytes| == Min(len, b.count - offset)
      && r.bytes == Contents(b)[offset..offset + r.ret]
      && (peeking ==> r.buf == b)
      && (!peeking ==> Contents(r.buf) == Contents(b)[r.ret..] && r.buf.seqStart == SeqOf(b, r.ret))
      && r.buf.seqEnd == b.seqEnd && r.buf.closed == b.closed && r.buf.maxsize == b.maxsize
  {
    if len == 0 then ReadFailed(CHITCP_EINVAL)
    else if b.count == 0 && !blocking then ReadFailed(CHITCP_EWOULDBLOCK)
    else if b.count == 0 && !b.closed then ReadWaits
    else if b.closed && b.count == 0 then ReadDone(b, [], 0)
    else CopyAndConsume(b, len, offset, peeking)
  }

  /** The copying branch of __circular_buffer_read, on a buffer holding more than `offset` bytes. */
  function CopyAndConsume(b: Buffer, len: uint32, offset: uint32, peeking: bool): (r: ReadResult)
    requires Valid(b) && offset < b.count && len > 0
    requires !peeking ==> offset == 0
    ensures r.ReadDone?
    ensures Valid(r.buf)
    ensures r.ret == |r.bytes| == Min(len, b.count - offset)
    ensures r.bytes == Contents(b)[offset..offset + r.ret]
    ensures peeking ==> r.buf == b
    ensures !peeking ==> Contents(r.buf) == Contents(b)[r.ret..] && r.buf.seqStart == SeqOf(b, r.ret)
    ensures r.buf.seqEnd == b.seqEnd && r.buf.closed == b.closed && r.buf.maxsize == b.maxsize
  {
    var m := b.maxsize;
    var s := (b.start + offset) % m;
    var toread := if len < b.count - offset then len else b.count - offset;
    var bytes := CopyOut(b, s, toread);
    var newStart := if s + toread > m then toread - (m - s) else s + toread;
    var nb := b.(start := newStart, count := b.count - toread, seqStart := Add32(b.seqStart, toread));
    ReadConsumes(b, offset, toread, s, newStart);
    if peeking then ReadDone(b, bytes, toread) else ReadDone(nb, bytes, toread)
  }

  /** The new `start` after removing `toread` bytes is congruent to the old one plus `toread`. */
  lemma AdvanceStart(start: int, toread: int, s: int, newStart: int, i: int, m: int)
    requires m > 0 && s == start % m
    requires newStart == s + toread || newStart == s + toread - m
    ensures (newStart + i) % m == (start + toread + i) % m
  {
    ModAddMultiple(s + toread + i - m, 1, m);
    ModAddLeft(start, toread + i, m);
  }

  /** Shortening the sequence window from the front by k shortens it by k. */
  lemma RetreatSeq(seqEnd: uint32, seqStart: uint32, count: int, k: nat)
    requires Sub32(seqEnd, seqStart) == count && k <= count
    ensures Sub32(seqEnd, Add32(seqStart, k)) == count - k
  {
    ModSubRight(seqEnd, seqStart + k, UINT32_MOD);
    ModSubLeft(seqEnd - seqStart, k, UINT32_MOD);
  }

  /** Cell k of the copy is the cell of byte offset + k of the queue. */
  lemma CopyCell(b: Buffer, offset: nat, toread: nat, s: nat, k: nat)
    requires |b.data| == b.maxsize && b.maxsize > 0 && toread <= b.maxsize && k < toread
    requires s == (b.start + offset) % b.maxsize
    ensures CopyOut(b, s, toread)[k] == b.data[(b.start + (offset + k)) % b.maxsize]
  {
    CopyOutCells(b, s, toread, k);
    ModAddLeft(b.start + offset, k, b.maxsize);
  }

  /** The copy returns the queue's bytes from `offset` on. */
  lemma {:induction false} ReadCopies(b: Buffer, offset: nat, toread: nat, s: nat)
    requires Valid(b) && b.maxsize > 0 && offset + toread <= b.count
    requires s == (b.start + offset) % b.maxsize
    ensures CopyOut(b, s, toread) == Contents(b)[offset..offset + toread]
  {
    var c := CopyOut(b, s, toread);
    var q := Contents(b)[offset..offset + toread];
    forall k | 0 <= k < toread
      ensures c[k] == q[k]
    {
      CopyCell(b, offset, toread, s, k);
      assert q[k] == Contents(b)[offset + k];
    }
    assert c == q;
  }

  /** Removing the first `toread` bytes leaves the rest of the queue, renumbered. */
  lemma {:induction false} ReadRemoves(b: Buffer, toread: nat, s: nat, newStart: nat)
    requires Valid(b) && b.maxsize > 0 && toread <= b.count
    requires s == b.start % b.maxsize
    requires newStart == if s + toread > b.maxsize then toread - (b.maxsize - s) else s + toread
    ensures var nb := b.(start := newStart, count := b.count - toread, seqStart := Add32(b.seqStart, toread));
      Valid(nb) && Contents(nb) == Contents(b)[toread..]
  {
    var m := b.maxsize;
    var nb := b.(start := newStart, count := b.count - toread, seqStart := Add32(b.seqStart, toread));
    AdvanceStart(b.start, toread, s, newStart, b.count - toread, m);
    RetreatSeq(b.seqEnd, b.seqStart, b.count, toread);
    assert Valid(nb);
    forall i | 0 <= i < b.count - toread
      ensures Contents(nb)[i] == Contents(b)[toread + i]
    {
      AdvanceStart(b.start, toread, s, newStart, i, m);
    }
  }

  /** The facts behind ReadInternal's contract, for the branch that copies. */
  lemma ReadConsumes(b: Buffer, offset: nat, toread: nat, s: nat, newStart: nat)
    requires Valid(b) && b.maxsize > 0 && offset + toread <= b.count
    requires s == (b.start + offset) % b.maxsize
    requires newStart == if s + toread > b.maxsize then toread - (b.maxsize - s) else s + toread
    ensures CopyOut(b, s, toread) == Contents(b)[offset..offset + toread]
    ensures offset == 0 ==>
      var nb := b.(start := newStart, count := b.count - toread, seqStart := Add32(b.seqStart, toread));
      Valid(nb) && Contents(nb) == Contents(b)[toread..]
  {
    ReadCopies(b, offset, toread, s);
    if offset == 0 {
      ReadRemoves(b, toread, s, newStart);
    }
  }

  /** circular_buffer_read: a read that removes what it copies. */
  function Read(b: Buffer, len: uint32, blocking: bool): (r: ReadResult)
    requires Valid(b)
    ensures r.ReadFailed? <==> len == 0 || (b.count == 0 && !blocking)
    ensures r.ReadFailed? ==> r.code == (if len == 0 then CHITCP_EINVAL else CHITCP_EWOULDBLOCK)
    ensures r.ReadWaits? <==> len > 0 && b.count == 0 && blocking && !b.closed
    ensures r.ReadDone? ==>
      && Valid(r.buf) && r.ret == |r.bytes| == Min(len, b.count)
      && r.bytes == Contents(b)[..r.ret]
      && Contents(r.buf) == Contents(b)[r.ret..] && r.buf.seqStart == SeqOf(b, r.ret)
      && Contents(b) == r.bytes + Contents(r.buf)
      && r.buf.seqEnd == b.seqEnd && r.buf.closed == b.closed && r.buf.maxsize == b.maxsize
  {
    ReadInternal(b, len, 0, blocking, false)
  }

  /** circular_buffer_peek: the same copy, leaving the buffer as it was. */
  function Peek(b: Buffer, len: uint32, blocking: bool): (r: ReadResult)
    requires Valid(b)
    ensures r.ReadDone? <==> Read(b, len, blocking).ReadDone?
    ensures !r.ReadDone? ==> r == Read(b, len, blocking)
    ensures r.ReadDone? ==>
      && r.buf == b && r.ret == Min(len, b.count) && r.bytes == Contents(b)[..r.ret]
      && r.bytes == Read(b, len, blocking).bytes
  {
    ReadInternal(b, len, 0, blocking, true)
  }

  /**
   * circular_buffer_peek_at as written: the window test compares raw uint32
   * values, so it has no room for a window that wraps past 2^32.
   */
  function PeekAtAsWritten(b: Buffer, at: uint32, len: uint32): (r: ReadResult)
    requires Valid(b)
    ensures b.seqEnd < b.seqStart ==> r == ReadFailed(CHITCP_EINVAL)
  {
    if at < b.seqStart || at >= b.seqEnd then ReadFailed(CHITCP_EINVAL)
    else ReadInternal(b, len, Sub32(at, b.seqStart), false, true)
  }

  /**
   * circular_buffer_peek_at with the window test done modulo 2^32: `at` is
   * accepted exactly when it numbers a byte in the queue.
   */
  function PeekAt(b: Buffer, at: uint32, len: uint32): (r: ReadResult)
    requires Valid(b)
    ensures r.ReadFailed? <==> len == 0 || Sub32(at, b.seqStart) >= b.count
    ensures r.ReadFailed? ==> r.code == CHITCP_EINVAL
    ensures r.ReadDone? ==>
      && r.buf == b && r.ret == Min(len, b.count - Sub32(at, b.seqStart))
      && r.bytes == Contents(b)[Sub32(at, b.seqStart)..][..r.ret]
    ensures !r.ReadWaits?
  {
    var offset := Sub32(at, b.seqStart);
    if offset >= b.count then ReadFailed(CHITCP_EINVAL)
    else ReadInternal(b, len, offset, false, true)
  }

  /** The distance from the first sequence number to that of byte i is i. */
  lemma SeqOfOffset(b: Buffer, i: nat)
    requires Valid(b) && i < b.count
    ensures Sub32(SeqOf(b, i), b.seqStart) == i
  {
    Sub32OfAdd(b.seqStart, i);
  }

  /** The byte numbered `SeqOf(b, i)` is the i-th byte of the queue. */
  lemma PeekAtFindsByte(b: Buffer, i: nat)
    requires Valid(b) && i < b.count
    ensures PeekAt(b, SeqOf(b, i), 1) == ReadDone(b, [Contents(b)[i]], 1)
  {
    SeqOfOffset(b, i);
    var r := PeekAt(b, SeqOf(b, i), 1);
    assert r.ReadDone?;
    assert r.bytes == Contents(b)[i..][..1] == [Contents(b)[i]];
  }

  /** While the window does not wrap, the written and the corrected test agree. */
  lemma PeekAtAgreesWithoutWrap(b: Buffer, at: uint32, len: uint32)
    requires Valid(b) && b.seqStart <= b.seqEnd
    ensures PeekAtAsWritten(b, at, len) == PeekAt(b, at, len)
  {
  }

  /**
   * A wrapped window: four bytes numbered 0xFFFFFFFE, 0xFFFFFFFF, 0, 1. The
   * written test refuses the second of them; the corrected one returns it.
   */
  lemma PeekAtWrapCounterexample()
    ensures var b := Buffer([10, 20, 30, 40], 0, 0, 4, 0xFFFF_FFFE, 0xFFFF_FFFE, 2, 4, false);
      && Valid(b)
      && PeekAtAsWritten(b, 0xFFFF_FFFF, 1) == ReadFailed(CHITCP_EINVAL)
      && PeekAt(b, 0xFFFF_FFFF, 1) == ReadDone(b, [20], 1)
  {
    var b := Buffer([10, 20, 30, 40], 0, 0, 4, 0xFFFF_FFFE, 0xFFFF_FFFE, 2, 4, false);
    assert Contents(b)[1] == 20;
    PeekAtFindsByte(b, 1);
  }

  // ---------------------------------------------------------------- accessors

  /** circular_buffer_first: the sequence number of the oldest byte, as a C int. */
  function First(b: Buffer): (r: int)
    ensures ToUint32(r) == b.seqStart
  {
    ToInt32(b.seqStart)
  }

  /** circular_buffer_next: the sequence number the next written byte will get, as a C int. */
  function Next(b: Buffer): (r: int)
    ensures ToUint32(r) == b.seqEnd
  {
    ToInt32(b.seqEnd)
  }

  /** The conversion of an int back to uint32_t. */
  function ToUint32(x: int): uint32 {
    x % UINT32_MOD
  }

  function Capacity(b: Buffer): (r: int)
    requires Valid(b)
    ensures r == b.maxsize
  {
    ToInt32(b.maxsize)
  }

  function Count(b: Buffer): (r: int)
    requires Valid(b)
    ensures r == |Contents(b)|
  {
    ToInt32(b.count)
  }

  /** circular_buffer_available: the room left, which Write accepts without blocking. */
  function Available(b: Buffer): (r: int)
    requires Valid(b)
    ensures r == b.maxsize - |Contents(b)|
    ensures r == 0 <==> |Contents(b)| == b.maxsize
  {
    ToInt32(b.maxsize - b.count)
  }

  /** circular_buffer_close: the queue is kept; only the flag changes. */
  function Close(b: Buffer): (r: Buffer)
    requires Valid(b)
    ensures Valid(r) && r.closed && Contents(r) == Contents(b)
  {
    b.(closed := true)
  }

  /**
   * After close, an empty buffer reads as end-of-stream instead of making the
   * reader wait, and a write that finds room stores nothing.
   */
  lemma ClosedBufferDrains(b: Buffer, len: uint32, src: seq<byte>)
    requires Valid(b) && len > 0 && 0 < |src| < UINT32_MOD
    ensures b.count == 0 ==> Read(Close(b), len, true) == ReadDone(Close(b), [], 0)
    ensures b.count < b.maxsize ==> Write(Close(b), src, true) == Wrote(Close(b), 0)
  {
  }

  /** Bytes come out in the order they went in: a write followed by a read of the same length. */
  lemma {:induction false} WriteThenRead(b: Buffer, src: seq<byte>)
    requires Valid(b) && !b.closed && b.count == 0 && 0 < |src| <= b.maxsize
    ensures var w := Write(b, src, false);
      && w.Wrote? && w.ret == |src|
      && var rd := Read(w.buf, |src|, false);
      && rd.ReadDone? && rd.bytes == src && Contents(rd.buf) == []
  {
    WriteNonBlocking(b, src);
    var w := Write(b, src, false);
    assert Contents(w.buf) == src;
  }
}
