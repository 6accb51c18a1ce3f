/**
 * `generateTimeSlots` of the reservation screen: the slots of one business on
 * one date, from its working hours "HH:mm-HH:mm" and its reservation length.
 */
module SlotGenerator {
  import opened Wrappers
  import opened Clock
  import opened Entities

  /**
   * The intervals the slot loop walks, on unbounded minutes: from `open`, in
   * steps of `d`, while the next slot ends no later than `close`.  A partial
   * last interval is dropped.
   */
  function Intervals(open: int, close: int, d: int): seq<(int, int)>
    requires d > 0
    decreases close - open
  {
    if open + d <= close then [(open, open + d)] + Intervals(open + d, close, d) else []
  }

  /** The value of the loop variable when the walk stops. */
  function LastStart(open: int, close: int, d: int): int
    requires d > 0
    decreases close - open
  {
    if open + d <= close then LastStart(open + d, close, d) else open
  }

  /**
   * No `plusMinutes` the loop evaluates crosses midnight, so the wrapped
   * arithmetic of `LocalTime` agrees with plain addition and the loop ends.
   */
  predicate NoWrap(open: int, close: int, d: int)
    requires d > 0
  {
    LastStart(open, close, d) + d < MinutesPerDay
  }

  /**
   * The number of slots is the number of whole steps of `d` that fit between
   * opening and closing time; there are none when the window is shorter than
   * one step (in particular when it closes before it opens).
   */
  lemma {:induction false} IntervalsCount(open: int, close: int, d: int)
    requires d > 0
    ensures open <= close ==> open + |Intervals(open, close, d)| * d <= close
    ensures open <= close ==> close < open + |Intervals(open, close, d)| * d + d
    ensures open > close ==> |Intervals(open, close, d)| == 0
    ensures |Intervals(open, close, d)| == 0 <==> close < open + d
    decreases close - open
  {
    if open + d <= close {
      IntervalsCount(open + d, close, d);
      var n := |Intervals(open + d, close, d)|;
      assert (n + 1) * d == n * d + d;
    }
  }

  /**
   * Slot `i` runs from `open + i * d` for exactly `d` minutes, so each slot
   * starts where the previous one ended; every slot ends by `close`, and the
   * last one leaves less than `d` minutes before `close`.
   */
  lemma {:induction false} IntervalsShape(open: int, close: int, d: int)
    requires d > 0
    ensures forall i :: 0 <= i < |Intervals(open, close, d)| ==>
      Intervals(open, close, d)[i] == (open + i * d, open + i * d + d)
    ensures forall i :: 0 <= i < |Intervals(open, close, d)| ==> Intervals(open, close, d)[i].1 <= close
    ensures |Intervals(open, close, d)| > 0 ==> close < Intervals(open, close, d)[|Intervals(open, close, d)| - 1].1 + d
    decreases close - open
  {
    if open + d <= close {
      IntervalsShape(open + d, close, d);
      var r, t := Intervals(open, close, d), Intervals(open + d, close, d);
      forall i | 1 <= i < |r|
        ensures r[i] == (open + i * d, open + i * d + d)
      {
        assert r[i] == t[i - 1];
        assert open + d + (i - 1) * d == open + i * d;
      }
    }
  }

  /** Adjacent slots touch: each starts where the previous one ended. */
  lemma Contiguous(open: int, close: int, d: int)
    requires d > 0
    ensures forall i :: 0 < i < |Intervals(open, close, d)| ==>
      Intervals(open, close, d)[i].0 == Intervals(open, close, d)[i - 1].1
  {
    IntervalsShape(open, close, d);
    var r := Intervals(open, close, d);
    forall i | 0 < i < |r|
      ensures r[i].0 == r[i - 1].1
    {
      assert open + (i - 1) * d + d == open + i * d;
    }
  }

  /** The walk stops at the start that follows the last slot. */
  lemma {:induction false} LastStartFollows(open: int, close: int, d: int)
    requires d > 0
    ensures LastStart(open, close, d) == open + |Intervals(open, close, d)| * d
    decreases close - open
  {
    if open + d <= close {
      LastStartFollows(open + d, close, d);
      var n := |Intervals(open + d, close, d)|;
      assert open + d + n * d == open + (n + 1) * d;
    }
  }

  /** Every interval lies inside [open, close]. */
  lemma {:induction false} IntervalsWithin(open: int, close: int, d: int)
    requires d > 0
    ensures forall i :: 0 <= i < |Intervals(open, close, d)| ==>
      open <= Intervals(open, close, d)[i].0 < Intervals(open, close, d)[i].1 <= close
    decreases close - open
  {
    if open + d <= close {
      IntervalsWithin(open + d, close, d);
    }
  }

  predicate WithinDay(iv: seq<(int, int)>)
  {
    forall i :: 0 <= i < |iv| ==> 0 <= iv[i].0 < MinutesPerDay && 0 <= iv[i].1 < MinutesPerDay
  }

  /** The record the loop adds for one interval: a new row (key 0), status "available". */
  function NewSlot(busId: int, date: Day, start: TimeOfDay, end: TimeOfDay): TimeSlot
  {
    TimeSlot(0, busId, date, FormatHHmm(start), FormatHHmm(end), SlotAvailable)
  }

  /** The records for a run of intervals, in order. */
  function SlotsFor(busId: int, date: Day, iv: seq<(int, int)>): (r: seq<TimeSlot>)
    requires WithinDay(iv)
    ensures |r| == |iv|
  {
    seq(|iv|, i requires 0 <= i < |iv| => NewSlot(busId, date, iv[i].0, iv[i].1))
  }

  /** The slots generated for a window. */
  function Generated(busId: int, date: Day, open: TimeOfDay, close: TimeOfDay, d: int): (r: seq<TimeSlot>)
    requires d > 0
  {
    IntervalsWithin(open, close, d);
    SlotsFor(busId, date, Intervals(open, close, d))
  }

  /**
   * Every generated slot is a new "available" row of the business on the
   * selected date, and no two of them share the unique (business, date,
   * start, end) key.
   */
  lemma GeneratedSlots(busId: int, date: Day, open: TimeOfDay, close: TimeOfDay, d: int)
    requires d > 0
    ensures |Generated(busId, date, open, close, d)| == |Intervals(open, close, d)|
    ensures forall s :: s in Generated(busId, date, open, close, d) ==>
      s.tmsId == 0 && s.busId == busId && s.date == date && s.status == SlotAvailable
    ensures forall i, j :: 0 <= i < j < |Generated(busId, date, open, close, d)| ==>
      KeyOf(Generated(busId, date, open, close, d)[i]) != KeyOf(Generated(busId, date, open, close, d)[j])
  {
    IntervalsCount(open, close, d);
    IntervalsShape(open, close, d);
    IntervalsWithin(open, close, d);
    var r, g := Intervals(open, close, d), Generated(busId, date, open, close, d);
    forall i, j | 0 <= i < j < |g|
      ensures KeyOf(g[i]) != KeyOf(g[j])
    {
      assert r[i].0 < r[j].0 by {
        assert i * d < j * d;
      }
      FormatInjective(r[i].0, r[j].0);
    }
  }

  /** One step of the walk moves the next interval from the remaining ones to the finished ones. */
  lemma IntervalsStep(done: seq<(int, int)>, current: int, next: int, close: int, d: int)
    requires d > 0 && next == current + d && next <= close
    ensures done + Intervals(current, close, d) == (done + [(current, next)]) + Intervals(next, close, d)
    ensures LastStart(next, close, d) == LastStart(current, close, d)
  {
    assert Intervals(current, close, d) == [(current, next)] + Intervals(next, close, d);
  }

  /** When the walk stops, the finished intervals are all of them. */
  lemma IntervalsDone(done: seq<(int, int)>, current: int, open: int, close: int, d: int)
    requires d > 0 && close < current + d
    requires done + Intervals(current, close, d) == Intervals(open, close, d)
    ensures done == Intervals(open, close, d)
  {
    assert Intervals(current, close, d) == [];
    assert done + [] == done;
  }

  /** The records of one more interval are the records so far and one new slot. */
  lemma SlotsForStep(busId: int, date: Day, done: seq<(int, int)>, start: TimeOfDay, end: TimeOfDay)
    requires WithinDay(done)
    ensures WithinDay(done + [(start, end)])
    ensures SlotsFor(busId, date, done + [(start, end)]) == SlotsFor(busId, date, done) + [NewSlot(busId, date, start, end)]
  {
    var iv := done + [(start, end)];
    assert forall i :: 0 <= i < |done| ==> iv[i] == done[i];
  }

  /**
   * What a run of the slot loop comes to: the items it added before its
   * guard failed, or `Endless` when the guard never fails and the loop does
   * not return.
   */
  datatype Run<T> = Finished(items: seq<T>) | Endless

  /** The loop variable after `k` passes of the written loop: `plusMinutes(d)` applied `k` times. */
  function Cursor(open: TimeOfDay, d: int, k: nat): TimeOfDay
  {
    if k == 0 then open else PlusMinutes(Cursor(open, d, k - 1), d)
  }

  /** The written guard on pass `k`: the next slot's end, wrapped at midnight, is not after closing time. */
  predicate Guard(open: TimeOfDay, close: TimeOfDay, d: int, k: nat)
  {
    PlusMinutes(Cursor(open, d, k), d) <= close
  }

  /** The written loop runs exactly `n` passes: the guard holds on each of them and fails on the next. */
  predicate StopsAfter(open: TimeOfDay, close: TimeOfDay, d: int, n: nat)
  {
    (forall k: nat :: k < n ==> Guard(open, close, d, k)) && !Guard(open, close, d, n)
  }

  /** The intervals of the first `n` passes: each from the loop variable to its `plusMinutes(d)`. */
  function Steps(open: TimeOfDay, d: int, n: nat): (iv: seq<(int, int)>)
    ensures |iv| == n && WithinDay(iv)
  {
    seq(n, i requires 0 <= i < n => (Cursor(open, d, i) as int, Cursor(open, d, i + 1) as int))
  }

  /** One more pass adds one interval, from where the loop variable is to where it goes. */
  lemma StepsStep(open: TimeOfDay, d: int, n: nat)
    ensures Steps(open, d, n + 1) == Steps(open, d, n) + [(Cursor(open, d, n) as int, Cursor(open, d, n + 1) as int)]
  {
  }

  /** A loop stops after one number of passes only. */
  lemma StopsOnce(open: TimeOfDay, close: TimeOfDay, d: int, n: nat, m: nat)
    requires StopsAfter(open, close, d, n) && StopsAfter(open, close, d, m)
    ensures n == m
  {
    assert n < m ==> Guard(open, close, d, n);
    assert m < n ==> Guard(open, close, d, m);
  }

  /** Shifting by whole days does not change a time of day. */
  lemma ModShift(x: int, q: int)
    ensures (x + q * MinutesPerDay) % MinutesPerDay == x % MinutesPerDay
  {
  }

  /** The loop variable after `k` passes is `open + k * d` reduced to the day. */
  lemma {:induction false} CursorClosed(open: TimeOfDay, d: int, k: nat)
    ensures Cursor(open, d, k) == (open + k * d) % MinutesPerDay
  {
    if k > 0 {
      CursorClosed(open, d, k - 1);
      var a := open + (k - 1) * d;
      assert a == (a / MinutesPerDay) * MinutesPerDay + a % MinutesPerDay;
      ModShift(a % MinutesPerDay + d, a / MinutesPerDay);
      assert a + d == open + k * d;
    }
  }

  /** After a whole day's worth of passes the loop variable is back where it was. */
  lemma CursorPeriodic(open: TimeOfDay, d: int, k: nat)
    ensures Cursor(open, d, k) == Cursor(open, d, k % MinutesPerDay)
  {
    var q, r := k / MinutesPerDay, k % MinutesPerDay;
    CursorClosed(open, d, k);
    CursorClosed(open, d, r);
    calc {
      k * d;
      (q * MinutesPerDay + r) * d;
      { MulAddRight(q * MinutesPerDay, r, d); }
      (q * MinutesPerDay) * d + r * d;
      { MulSwap(q, MinutesPerDay, d); }
      r * d + (q * d) * MinutesPerDay;
    }
    ModShift(open + r * d, q * d);
  }

  lemma MulAddRight(x: int, y: int, d: int)
    ensures (x + y) * d == x * d + y * d
  {
  }

  lemma MulMono(i: nat, j: nat, d: int)
    requires i <= j && d > 0
    ensures i * d <= j * d
  {
    MulAddRight(j - i, i, d);
    assert (j - i) * d >= 0;
  }

  lemma MulSwap(q: int, m: int, d: int)
    ensures (q * m) * d == (q * d) * m
  {
  }

  /**
   * A loop whose guard holds on a whole day's worth of passes never stops:
   * the loop variable repeats with period 1440, and so does the guard.
   */
  lemma NeverStops(open: TimeOfDay, close: TimeOfDay, d: int)
    requires forall k: nat :: k < MinutesPerDay ==> Guard(open, close, d, k)
    ensures forall k: nat :: Guard(open, close, d, k)
  {
    forall k: nat
      ensures Guard(open, close, d, k)
    {
      CursorPeriodic(open, d, k);
      assert Guard(open, close, d, k % MinutesPerDay);
    }
  }

  /** While the walk stays within the day, the loop variable after `i` passes is plain `open + i * d`. */
  lemma {:induction false} CursorLinear(open: TimeOfDay, d: int, i: nat)
    requires d > 0 && open + i * d < MinutesPerDay
    ensures Cursor(open, d, i) == open + i * d
  {
    if i > 0 {
      assert (i - 1) * d + d == i * d;
      assert (i - 1) * d >= 0;
      CursorLinear(open, d, i - 1);
    }
  }

  /**
   * On a window the walk crosses without wrapping at midnight, the written
   * loop stops after exactly the passes of `Intervals`, and walks exactly
   * its intervals.
   */
  lemma WrittenWalkIsIntervals(open: TimeOfDay, close: TimeOfDay, d: int)
    requires d > 0 && NoWrap(open, close, d)
    ensures StopsAfter(open, close, d, |Intervals(open, close, d)|)
    ensures Steps(open, d, |Intervals(open, close, d)|) == Intervals(open, close, d)
  {
    var n := |Intervals(open, close, d)|;
    IntervalsCount(open, close, d);
    IntervalsShape(open, close, d);
    LastStartFollows(open, close, d);
    CursorOnWalk(open, d, n);
    GuardsOnWalk(open, close, d);
    StepsOnWalk(open, close, d);
  }

  /** While no step wraps, the first `n + 1` values of the loop variable are `open + i * d`. */
  lemma CursorOnWalk(open: TimeOfDay, d: int, n: nat)
    requires d > 0 && open + n * d + d < MinutesPerDay
    ensures forall i: nat :: i <= n + 1 ==> Cursor(open, d, i) == open + i * d
  {
    forall i: nat | i <= n + 1
      ensures Cursor(open, d, i) == open + i * d
    {
      MulMono(i, n + 1, d);
      MulAddRight(n, 1, d);
      CursorLinear(open, d, i);
    }
  }

  /** On a window walked without wrapping, the guard holds for each slot of `Intervals` and fails after the last. */
  lemma GuardsOnWalk(open: TimeOfDay, close: TimeOfDay, d: int)
    requires d > 0 && NoWrap(open, close, d)
    ensures StopsAfter(open, close, d, |Intervals(open, close, d)|)
  {
    var iv := Intervals(open, close, d);
    var n := |iv|;
    IntervalsCount(open, close, d);
    IntervalsShape(open, close, d);
    LastStartFollows(open, close, d);
    CursorOnWalk(open, d, n);
    forall k: nat | k < n
      ensures Guard(open, close, d, k)
    {
      MulAddRight(k, 1, d);
      assert Cursor(open, d, k + 1) == iv[k].1;
    }
    MulAddRight(n, 1, d);
    assert Cursor(open, d, n + 1) == open + n * d + d;
  }

  /** On a window walked without wrapping, the written loop's intervals are those of `Intervals`. */
  lemma StepsOnWalk(open: TimeOfDay, close: TimeOfDay, d: int)
    requires d > 0 && NoWrap(open, close, d)
    ensures Steps(open, d, |Intervals(open, close, d)|) == Intervals(open, close, d)
  {
    var iv := Intervals(open, close, d);
    var n := |iv|;
    IntervalsShape(open, close, d);
    LastStartFollows(open, close, d);
    CursorOnWalk(open, d, n);
    var s := Steps(open, d, n);
    forall i | 0 <= i < n
      ensures s[i] == iv[i]
    {
      MulAddRight(i, 1, d);
    }
  }

  /**
   * The loop of `generateTimeSlots`: from opening time, while
   * `current.plusMinutes(d) <= end`, adds the slot (current, next) and moves
   * to `next`.  It adds one new "available" slot per pass, in order, for as
   * long as the written guard holds, and is `Endless` exactly when the guard
   * never fails.  The pass counter is the model's own: once the guard has
   * held for a whole day's worth of passes it holds for ever.
   */
  method WalkSlots(busId: int, date: Day, open: TimeOfDay, close: TimeOfDay, d: int) returns (r: Run<TimeSlot>)
    ensures r.Finished? ==> StopsAfter(open, close, d, |r.items|)
    ensures r.Finished? ==> r.items == SlotsFor(busId, date, Steps(open, d, |r.items|))
    ensures r.Endless? <==> forall k: nat :: Guard(open, close, d, k)
  {
    var slots: seq<TimeSlot> := [];
    var current: TimeOfDay := open;
    var k: nat := 0;
    while k < MinutesPerDay && PlusMinutes(current, d) <= close
      invariant k <= MinutesPerDay
      invariant current == Cursor(open, d, k)
      invariant forall j: nat :: j < k ==> Guard(open, close, d, j)
      invariant slots == SlotsFor(busId, date, Steps(open, d, k))
    {
      var endTime := PlusMinutes(current, d);
      StepsStep(open, d, k);
      SlotsForStep(busId, date, Steps(open, d, k), current, endTime);
      slots := slots + [NewSlot(busId, date, current, endTime)];
      current := endTime;
      k := k + 1;
    }
    if k == MinutesPerDay {
      NeverStops(open, close, d);
      return Endless;
    }
    return Finished(slots);
  }

  /**
   * `generateTimeSlots(workingHours, reservationTime)`: parses the trimmed
   * parts of the working hours, then runs the loop on the window.  It fails
   * exactly when the working hours do not parse; otherwise it is the run of
   * the written loop, and on a window the walk crosses without wrapping at
   * midnight that run finishes with the slots of `Intervals`.
   */
  method GenerateTimeSlots(busId: int, date: Day, workingHours: string, reservationTime: int)
    returns (r: Result<Run<TimeSlot>, HoursError>)
    ensures r.Failure? <==> ParseWorkingHours(workingHours, true).Failure?
    ensures r.Failure? ==> r.error == ParseWorkingHours(workingHours, true).error
    ensures r.Success? && r.value.Finished? ==> var (open, close) := ParseWorkingHours(workingHours, true).value;
      StopsAfter(open, close, reservationTime, |r.value.items|) &&
      r.value.items == SlotsFor(busId, date, Steps(open, reservationTime, |r.value.items|))
    ensures r.Success? ==> var (open, close) := ParseWorkingHours(workingHours, true).value;
      (r.value.Endless? <==> forall k: nat :: Guard(open, close, reservationTime, k))
    ensures r.Success? ==> var (open, close) := ParseWorkingHours(workingHours, true).value;
      reservationTime > 0 && NoWrap(open, close, reservationTime) ==>
        r.value == Finished(Generated(busId, date, open, close, reservationTime))
  {
    var hours := ParseWorkingHours(workingHours, true);
    if hours.Failure? {
      return Failure(hours.error);
    }
    var (open, close) := hours.value;
    var run := WalkSlots(busId, date, open, close, reservationTime);
    if reservationTime > 0 && NoWrap(open, close, reservationTime) {
      WrittenWalkIsIntervals(open, close, reservationTime);
      var n := |Intervals(open, close, reservationTime)|;
      assert !Guard(open, close, reservationTime, n);
      assert run.Finished?;
      StopsOnce(open, close, reservationTime, |run.items|, n);
      IntervalsWithin(open, close, reservationTime);
    }
    return Success(run);
  }

  /**
   * The corrected loop: the guard compares `current + d` with closing time
   * without wrapping at midnight, so it stops on every window, and every slot
   * it adds lies within [open, close] on the same day.
   */
  method WalkSlotsWithinDay(busId: int, date: Day, open: TimeOfDay, close: TimeOfDay, d: int) returns (slots: seq<TimeSlot>)
    requires d > 0
    ensures slots == Generated(busId, date, open, close, d)
  {
    slots := [];
    var current: TimeOfDay := open;
    ghost var done: seq<(int, int)> := [];
    while current + d <= close
      invariant done + Intervals(current, close, d) == Intervals(open, close, d)
      invariant WithinDay(done)
      invariant slots == SlotsFor(busId, date, done)
      decreases close - current
    {
      var endTime: TimeOfDay := current + d;
      SlotsForStep(busId, date, done, current, endTime);
      IntervalsStep(done, current, endTime, close, d);
      slots := slots + [NewSlot(busId, date, current, endTime)];
      done := done + [(current, endTime)];
      current := endTime;
    }
    IntervalsDone(done, current, open, close, d);
  }

  /**
   * `generateTimeSlots` with the corrected loop: it stops on every parsed
   * window with the slots of `Intervals`, none crossing midnight; on a
   * window the written loop walks without wrapping, those are exactly the
   * slots of the written loop's run.
   */
  method GenerateTimeSlotsWithinDay(busId: int, date: Day, workingHours: string, reservationTime: int)
    returns (r: Result<seq<TimeSlot>, HoursError>)
    requires reservationTime > 0
    ensures r.Failure? <==> ParseWorkingHours(workingHours, true).Failure?
    ensures r.Failure? ==> r.error == ParseWorkingHours(workingHours, true).error
    ensures r.Success? ==> var (open, close) := ParseWorkingHours(workingHours, true).value;
      r.value == Generated(busId, date, open, close, reservationTime)
    ensures r.Success? ==> var (open, close) := ParseWorkingHours(workingHours, true).value;
      NoWrap(open, close, reservationTime) ==>
        StopsAfter(open, close, reservationTime, |r.value|) &&
        r.value == SlotsFor(busId, date, Steps(open, reservationTime, |r.value|))
  {
    var hours := ParseWorkingHours(workingHours, true);
    if hours.Failure? {
      return Failure(hours.error);
    }
    var (open, close) := hours.value;
    var slots := WalkSlotsWithinDay(busId, date, open, close, reservationTime);
    IntervalsWithin(open, close, reservationTime);
    if NoWrap(open, close, reservationTime) {
      WrittenWalkIsIntervals(open, close, reservationTime);
    }
    return Success(slots);
  }

  /** Working hours written out from two times parse back to those times. */
  lemma HoursText(workingHours: string, open: TimeOfDay, close: TimeOfDay)
    requires workingHours == FormatHHmm(open) + "-" + FormatHHmm(close)
    ensures ParseWorkingHours(workingHours, true) == Success((open, close))
  {
    WorkingHoursRoundTrip(open, close, true);
  }

  /** The loop's guard as written: the next slot's end, wrapped around midnight, is not after closing time. */
  predicate WrappedGuard(current: TimeOfDay, close: TimeOfDay, d: int)
  {
    PlusMinutes(current, d) <= close
  }

  /**
   * As written, working hours "09:00-23:45" with 30-minute slots never stop:
   * every whole half hour passes the guard and steps to another whole half
   * hour, so from 09:00 the loop runs forever.
   */
  lemma HalfHoursNeverStop(current: TimeOfDay)
    requires current % 30 == 0
    ensures WrappedGuard(current, 1425, 30)
    ensures PlusMinutes(current, 30) % 30 == 0
  {
  }

  /** A window holding `n` whole steps, with less than one step left over, has `n` slots. */
  lemma {:induction false} CountSteps(open: int, close: int, d: int, n: nat)
    requires d > 0
    requires open + n * d <= close < open + n * d + d
    ensures |Intervals(open, close, d)| == n
    decreases n
  {
    if n > 0 {
      assert n * d == (n - 1) * d + d;
      assert (n - 1) * d >= 0;
      CountSteps(open + d, close, d, n - 1);
    }
  }

  /**
   * A window written out as text: it parses back, holds `n` slots, and the
   * walk stays within the day exactly when the slot after the last fits.
   */
  lemma Schedule(workingHours: string, open: TimeOfDay, close: TimeOfDay, d: int, n: nat)
    requires d > 0
    requires workingHours == FormatHHmm(open) + "-" + FormatHHmm(close)
    requires open + n * d <= close < open + n * d + d
    ensures ParseWorkingHours(workingHours, true) == Success((open, close))
    ensures |Intervals(open, close, d)| == n
    ensures NoWrap(open, close, d) <==> open + n * d + d < MinutesPerDay
  {
    HoursText(workingHours, open, close);
    IntervalsCount(open, close, d);
    LastStartFollows(open, close, d);
    CountSteps(open, close, d, n);
  }

  /**
   * The input that shows it: the window parses, the guard at 23:30 admits a
   * slot ending at 00:00 (before it starts), and the window is outside
   * `NoWrap`, which the corrected loop requires.
   */
  lemma WrapPastMidnight()
    ensures ParseWorkingHours("09:00-23:45", true) == Success((540, 1425))
    ensures WrappedGuard(1410, 1425, 30) && PlusMinutes(1410, 30) == 0
    ensures !NoWrap(540, 1425, 30)
    ensures forall k: nat :: Guard(540, 1425, 30, k)
  {
    assert FormatHHmm(540) == "09:00" && FormatHHmm(1425) == "23:45";
    Schedule("09:00-23:45", 540, 1425, 30, 29);
    forall k: nat
      ensures Guard(540, 1425, 30, k)
    {
      HalfHourCursor(k);
      HalfHoursNeverStop(Cursor(540, 30, k));
    }
  }

  /** From 09:00 in 30-minute steps the loop variable is always a whole half hour. */
  lemma {:induction false} HalfHourCursor(k: nat)
    ensures Cursor(540, 30, k) % 30 == 0
  {
    if k > 0 {
      HalfHourCursor(k - 1);
      HalfHoursNeverStop(Cursor(540, 30, k - 1));
    }
  }

  /** "23:50-09:00" parses to a window that closes before it opens. */
  lemma OvernightHours()
    ensures ParseWorkingHours("23:50-09:00", true) == Success((1430, 540))
  {
    assert FormatHHmm(1430) == "23:50" && FormatHHmm(540) == "09:00";
    HoursText("23:50-09:00", 1430, 540);
  }

  /** From 23:50 in 30-minute steps, the loop variable after `i` passes (1 to 19) is 00:20 plus 30 minutes a pass. */
  lemma OvernightCursor(i: nat)
    requires 1 <= i <= 19
    ensures Cursor(1430, 30, i) == 30 * i - 10
  {
    CursorClosed(1430, 30, i);
    assert 1430 + i * 30 == MinutesPerDay + (30 * i - 10);
  }

  /**
   * A window that wraps and still stops: from 23:50 to 09:00 with 30 minutes
   * the written loop runs 18 passes, from (23:50, 00:20) to (08:20, 08:50),
   * so it adds slots that cross midnight.
   */
  lemma OvernightWindow()
    ensures StopsAfter(1430, 540, 30, 18)
    ensures Steps(1430, 30, 18)[0] == (1430, 20) && Steps(1430, 30, 18)[17] == (500, 530)
  {
    forall k: nat | k < 18
      ensures Guard(1430, 540, 30, k)
    {
      OvernightCursor(k + 1);
    }
    OvernightCursor(1);
    OvernightCursor(17);
    OvernightCursor(18);
    OvernightCursor(19);
  }

  /** From 09:00 in steps of −30 minutes the loop variable counts down to midnight. */
  lemma NegativeCursor(i: nat)
    requires i <= 18
    ensures Cursor(540, -30, i) == 540 - 30 * i
  {
    CursorClosed(540, -30, i);
  }

  /**
   * A negative step stops too: "09:00-17:00" with −30 minutes runs 18 passes,
   * each slot ending before it starts, until the wrapped end 23:30 is past closing.
   */
  lemma NegativeStep()
    ensures StopsAfter(540, 1020, -30, 18)
    ensures Steps(540, -30, 18)[0] == (540, 510) && Steps(540, -30, 18)[17] == (30, 0)
  {
    forall k: nat | k < 18
      ensures Guard(540, 1020, -30, k)
    {
      NegativeCursor(k);
      NegativeCursor(k + 1);
    }
    NegativeCursor(0);
    NegativeCursor(1);
    NegativeCursor(17);
    NegativeCursor(18);
  }

  /** "La Bella Italia", seeded with "09:00-17:00" and 30 minutes: 16 slots, 09:00-09:30 to 16:30-17:00. */
  lemma BellaItaliaSchedule()
    ensures ParseWorkingHours("09:00-17:00", true) == Success((540, 1020))
    ensures |Intervals(540, 1020, 30)| == 16 && NoWrap(540, 1020, 30)
    ensures Intervals(540, 1020, 30)[0] == (540, 570) && Intervals(540, 1020, 30)[15] == (990, 1020)
  {
    assert FormatHHmm(540) == "09:00" && FormatHHmm(1020) == "17:00";
    Schedule("09:00-17:00", 540, 1020, 30, 16);
    IntervalsShape(540, 1020, 30);
  }

  /** "Sushi Master", seeded with "10:00-18:00" and 30 minutes: 16 slots. */
  lemma SushiMasterSchedule()
    ensures ParseWorkingHours("10:00-18:00", true) == Success((600, 1080))
    ensures |Intervals(600, 1080, 30)| == 16 && NoWrap(600, 1080, 30)
  {
    assert FormatHHmm(600) == "10:00" && FormatHHmm(1080) == "18:00";
    Schedule("10:00-18:00", 600, 1080, 30, 16);
  }

  /** "Grand Hotel", seeded with "09:00-18:00" and 60 minutes: 9 slots. */
  lemma GrandHotelSchedule()
    ensures ParseWorkingHours("09:00-18:00", true) == Success((540, 1080))
    ensures |Intervals(540, 1080, 60)| == 9 && NoWrap(540, 1080, 60)
  {
    assert FormatHHmm(540) == "09:00" && FormatHHmm(1080) == "18:00";
    Schedule("09:00-18:00", 540, 1080, 60, 9);
  }

  /** "Style Studio", seeded with "10:00-19:00" and 60 minutes: 9 slots. */
  lemma StyleStudioSchedule()
    ensures ParseWorkingHours("10:00-19:00", true) == Success((600, 1140))
    ensures |Intervals(600, 1140, 60)| == 9 && NoWrap(600, 1140, 60)
  {
    assert FormatHHmm(600) == "10:00" && FormatHHmm(1140) == "19:00";
    Schedule("10:00-19:00", 600, 1140, 60, 9);
  }
}
