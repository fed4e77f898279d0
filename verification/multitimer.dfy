/**
 * Time arithmetic and timers (src/libchitcp/multitimer.c,
 * include/chitcp/multitimer.h). timespec_subtract is modelled from its body;
 * the mt_* functions are left to implementers in the source, so the timer
 * table is modelled from their documented contract, with the expiry of a
 * timer as an explicit step.
 */
module MultiTimer {
  import opened Base
  import ModArith

  /** SECOND: nanoseconds per second. */
  const SECOND: int := 1_000_000_000

  /** struct timespec, both fields as mathematical integers. */
  datatype Timespec = Timespec(sec: int, nsec: int)

  /** The instant a timespec denotes, in nanoseconds. */
  function Nanos(t: Timespec): int {
    t.sec * SECOND + t.nsec
  }

  /** A normalised timespec has 0 <= tv_nsec < SECOND. */
  predicate Normal(t: Timespec) {
    0 <= t.nsec < SECOND
  }

  /**
   * timespec_subtract: x - y, with the carry applied to a copy of y; the
   * flag is 1 when the seconds of x are below those of the adjusted y.
   * Both divisions have positive operands, where C's truncating division
   * agrees with Dafny's.
   */
  function TimespecSubtract(x: Timespec, y: Timespec): (r: (Timespec, int))
    ensures Nanos(r.0) == Nanos(x) - Nanos(y)
    ensures r.1 == 0 || r.1 == 1
    ensures Normal(x) && Normal(y) ==> Normal(r.0)
    ensures Normal(x) && Normal(y) ==> (r.1 == 1 <==> Nanos(x) < Nanos(y))
  {
    var t1 := if x.nsec < y.nsec then
        var s := (y.nsec - x.nsec) / SECOND + 1;
        Timespec(y.sec + s, y.nsec - SECOND * s)
      else y;
    var t2 := if x.nsec - t1.nsec > SECOND then
        var s := (x.nsec - t1.nsec) / SECOND;
        Timespec(t1.sec - s, t1.nsec + SECOND * s)
      else t1;
    CarryKeepsInstant(x, y);
    (Timespec(x.sec - t2.sec, x.nsec - t2.nsec), if x.sec < t2.sec then 1 else 0)
  }

  /** Each carry step moves whole seconds between the fields of the copy of y, so the instant it denotes is unchanged. */
  lemma CarryKeepsInstant(x: Timespec, y: Timespec)
    ensures var t1 := if x.nsec < y.nsec then
        var s := (y.nsec - x.nsec) / SECOND + 1;
        Timespec(y.sec + s, y.nsec - SECOND * s)
      else y;
      var t2 := if x.nsec - t1.nsec > SECOND then
        var s := (x.nsec - t1.nsec) / SECOND;
        Timespec(t1.sec - s, t1.nsec + SECOND * s)
      else t1;
      && Nanos(t2) == Nanos(y)
      && (Normal(x) && Normal(y) ==>
            && 0 <= x.nsec - t2.nsec < SECOND
            && (x.nsec < y.nsec ==> t2.sec == y.sec + 1)
            && (x.nsec >= y.nsec ==> t2 == y))
  {
    var t1 := if x.nsec < y.nsec then
        var s := (y.nsec - x.nsec) / SECOND + 1;
        Timespec(y.sec + s, y.nsec - SECOND * s)
      else y;
    if x.nsec < y.nsec {
      var s := (y.nsec - x.nsec) / SECOND + 1;
      assert Nanos(t1) == (y.sec + s) * SECOND + y.nsec - SECOND * s;
      if Normal(x) && Normal(y) {
        ModArith.ModSmall(y.nsec - x.nsec, SECOND);
        assert (y.nsec - x.nsec) / SECOND == 0;
        assert s == 1;
      }
    }
    if x.nsec - t1.nsec > SECOND {
      var s := (x.nsec - t1.nsec) / SECOND;
      var t2 := Timespec(t1.sec - s, t1.nsec + SECOND * s);
      assert Nanos(t2) == (t1.sec - s) * SECOND + t1.nsec + SECOND * s;
    }
  }

  /** The subtraction of an instant from itself is zero and not negative; subtracting in the other order flips the sign. */
  lemma SubtractAntisymmetric(x: Timespec, y: Timespec)
    requires Normal(x) && Normal(y)
    ensures TimespecSubtract(x, x) == (Timespec(0, 0), 0)
    ensures Nanos(TimespecSubtract(y, x).0) == -Nanos(TimespecSubtract(x, y).0)
    ensures Nanos(x) != Nanos(y) ==> TimespecSubtract(x, y).1 + TimespecSubtract(y, x).1 == 1
  {
    var r := TimespecSubtract(x, x).0;
    assert Nanos(r) == 0 && Normal(r);
    if r.sec != 0 {
      if r.sec > 0 {
        ModArith.MulMono(r.sec, SECOND);
      } else {
        ModArith.MulMono(-r.sec, SECOND);
      }
    }
  }

  // ------------------------------------------------------------ timers

  /** single_timer_t without its name, which is for debugging only. */
  datatype Timer = Timer(id: uint16, active: bool, numTimeouts: nat)

  /** A multitimer is its table of timers, indexed by id. */
  datatype MultiTimer = MultiTimer(timers: seq<Timer>)
  {
    predicate Valid() {
      |timers| < UINT16_MOD && forall i :: 0 <= i < |timers| ==> timers[i].id == i
    }
  }

  /** The result of an operation that may change the table: the new table and the return code. */
  datatype MtResult = MtResult(mt: MultiTimer, rc: int)

  /** mt_init: timers 0..num_timers-1, each inactive with no timeouts. */
  function MtInit(numTimers: uint16): (r: MtResult)
    ensures r.rc == CHITCP_OK && r.mt.Valid() && |r.mt.timers| == numTimers
    ensures forall i :: 0 <= i < numTimers ==> !r.mt.timers[i].active && r.mt.timers[i].numTimeouts == 0
  {
    MtResult(MultiTimer(seq(numTimers, i requires 0 <= i < numTimers => Timer(i, false, 0))), CHITCP_OK)
  }

  /** mt_get_timer_by_id: the timer itself, or CHITCP_EINVAL for an identifier past the table. */
  function MtGetTimerById(mt: MultiTimer, id: uint16): (r: Option<Timer>)
    requires mt.Valid()
    ensures r.None? <==> id >= |mt.timers|
    ensures r.Some? ==> r.value.id == id && r.value == mt.timers[id]
  {
    if id >= |mt.timers| then None else Some(mt.timers[id])
  }

  /** The return code mt_get_timer_by_id gives for a lookup. */
  function GetRc(r: Option<Timer>): int {
    if r.None? then CHITCP_EINVAL else CHITCP_OK
  }

  /** mt_set_timer: CHITCP_EINVAL for an invalid id or an active timer; otherwise the timer becomes active. */
  function MtSetTimer(mt: MultiTimer, id: uint16): (r: MtResult)
    requires mt.Valid()
    ensures r.rc == CHITCP_EINVAL <==> id >= |mt.timers| || mt.timers[id].active
    ensures r.rc != CHITCP_EINVAL ==>
      && r.rc == CHITCP_OK && r.mt.Valid() && |r.mt.timers| == |mt.timers|
      && r.mt.timers[id] == mt.timers[id].(active := true)
      && forall j :: 0 <= j < |mt.timers| && j != id ==> r.mt.timers[j] == mt.timers[j]
    ensures r.rc == CHITCP_EINVAL ==> r.mt == mt
  {
    if id >= |mt.timers| || mt.timers[id].active then MtResult(mt, CHITCP_EINVAL)
    else MtResult(MultiTimer(mt.timers[id := mt.timers[id].(active := true)]), CHITCP_OK)
  }

  /** mt_cancel_timer: CHITCP_EINVAL for an invalid id or an inactive timer; otherwise the timer stops without counting a timeout. */
  function MtCancelTimer(mt: MultiTimer, id: uint16): (r: MtResult)
    requires mt.Valid()
    ensures r.rc == CHITCP_EINVAL <==> id >= |mt.timers| || !mt.timers[id].active
    ensures r.rc != CHITCP_EINVAL ==>
      && r.rc == CHITCP_OK && r.mt.Valid() && |r.mt.timers| == |mt.timers|
      && r.mt.timers[id] == mt.timers[id].(active := false)
      && forall j :: 0 <= j < |mt.timers| && j != id ==> r.mt.timers[j] == mt.timers[j]
    ensures r.rc == CHITCP_EINVAL ==> r.mt == mt
  {
    if id >= |mt.timers| || !mt.timers[id].active then MtResult(mt, CHITCP_EINVAL)
    else MtResult(MultiTimer(mt.timers[id := mt.timers[id].(active := false)]), CHITCP_OK)
  }

  /**
   * The expiry of timer id once its timeout has passed: it becomes inactive
   * and its timeout count goes up by one. A timer that is not active (it was
   * cancelled first) does not expire.
   */
  function Expire(mt: MultiTimer, id: uint16): (r: MultiTimer)
    requires mt.Valid()
    ensures r.Valid() && |r.timers| == |mt.timers|
    ensures id < |mt.timers| && mt.timers[id].active ==>
      r.timers[id] == Timer(id, false, mt.timers[id].numTimeouts + 1)
    ensures forall j :: 0 <= j < |mt.timers| && (j != id || !mt.timers[id].active) ==> r.timers[j] == mt.timers[j]
  {
    if id < |mt.timers| && mt.timers[id].active then
      MultiTimer(mt.timers[id := Timer(id, false, mt.timers[id].numTimeouts + 1)])
    else mt
  }

  /** Cancelling a timer that was just set gives back the table as it was. */
  lemma CancelUndoesSet(mt: MultiTimer, id: uint16)
    requires mt.Valid() && id < |mt.timers| && !mt.timers[id].active
    ensures MtCancelTimer(MtSetTimer(mt, id).mt, id) == MtResult(mt, CHITCP_OK)
  {
    assert MtCancelTimer(MtSetTimer(mt, id).mt, id).mt.timers == mt.timers;
  }

  /**
   * A timer set and left to expire twice has timed out twice and is
   * inactive; a second set before the expiry is refused.
   */
  lemma SetExpireTwice(n: uint16, id: uint16)
    requires id < n
    ensures var m0 := MtInit(n).mt;
      var m1 := Expire(MtSetTimer(m0, id).mt, id);
      var m2 := Expire(MtSetTimer(m1, id).mt, id);
      && MtSetTimer(MtSetTimer(m0, id).mt, id).rc == CHITCP_EINVAL
      && m1.timers[id] == Timer(id, false, 1)
      && m2.timers[id] == Timer(id, false, 2)
  {
  }

  /**
   * Setting every even-numbered timer and letting them expire leaves each
   * even timer with one timeout and each odd one with none.
   */
  lemma {:induction false} SetEvenTimers(mt: MultiTimer, k: nat)
    requires mt.Valid() && k <= |mt.timers|
    requires forall i :: 0 <= i < |mt.timers| ==> !mt.timers[i].active && mt.timers[i].numTimeouts == 0
    ensures var r := SetAndExpireEven(mt, k);
      && r.Valid() && |r.timers| == |mt.timers|
      && forall i :: 0 <= i < |mt.timers| ==>
        !r.timers[i].active && r.timers[i].numTimeouts == (if i < k && i % 2 == 0 then 1 else 0)
    decreases k
  {
    if k > 0 {
      SetEvenTimers(mt, k - 1);
    }
  }

  /** The loop of the test that sets the timers 0, 2, 4, ... below k and lets each expire. */
  function SetAndExpireEven(mt: MultiTimer, k: nat): (r: MultiTimer)
    requires mt.Valid() && k <= |mt.timers|
    ensures r.Valid() && |r.timers| == |mt.timers|
    decreases k
  {
    if k == 0 then mt
    else
      var prev := SetAndExpireEven(mt, k - 1);
      if (k - 1) % 2 == 0 then Expire(MtSetTimer(prev, k - 1).mt, k - 1) else prev
  }
}
