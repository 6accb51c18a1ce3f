/**
 * The top-level `generateTimeSlots(workingHours)`: a fixed 30-minute step,
 * untrimmed parts, and "HH:mm - HH:mm" strings instead of slot records.
 */
module SlotLabels {
  import opened Wrappers
  import opened Clock
  import opened Entities
  import opened SlotGenerator
  import SlotAvailability

  /** The fixed slot length, in minutes. */
  const Step := 30

  /** One slot as text. */
  function Label(start: TimeOfDay, end: TimeOfDay): string
  {
    FormatHHmm(start) + " - " + FormatHHmm(end)
  }

  /** The labels of a run of intervals, in order. */
  function Labels(iv: seq<(int, int)>): (r: seq<string>)
    requires WithinDay(iv)
    ensures |r| == |iv|
  {
    seq(|iv|, i requires 0 <= i < |iv| => Label(iv[i].0, iv[i].1))
  }

  /** The labels of one more interval are the labels so far and one more label. */
  lemma LabelsStep(done: seq<(int, int)>, start: TimeOfDay, end: TimeOfDay)
    requires WithinDay(done)
    ensures WithinDay(done + [(start, end)])
    ensures Labels(done + [(start, end)]) == Labels(done) + [Label(start, end)]
  {
    var iv := done + [(start, end)];
    assert forall i :: 0 <= i < |done| ==> iv[i] == done[i];
  }

  /** The labels of a window's 30-minute slots. */
  function WindowLabels(open: TimeOfDay, close: TimeOfDay): seq<string>
  {
    IntervalsWithin(open, close, Step);
    Labels(Intervals(open, close, Step))
  }

  /** The loop's guard as written: `isBefore(end) || == end` on the wrapped next time, which is `<= end`. */
  predicate BeforeOrAt(current: TimeOfDay, close: TimeOfDay)
    ensures BeforeOrAt(current, close) <==> PlusMinutes(current, Step) <= close
  {
    PlusMinutes(current, Step) < close || PlusMinutes(current, Step) == close
  }

  /**
   * `generateTimeSlots(workingHours)`: parses the untrimmed parts, then
   * labels the intervals of the same loop the reservation screen's generator
   * runs with d = 30, for as long as the written guard holds; `Endless` when
   * it never fails.  On a window the walk crosses without wrapping at
   * midnight, the labels are those of the 30-minute `Intervals`.
   */
  method GenerateLabels(workingHours: string) returns (r: Result<Run<string>, HoursError>)
    ensures r.Failure? <==> ParseWorkingHours(workingHours, false).Failure?
    ensures r.Failure? ==> r.error == ParseWorkingHours(workingHours, false).error
    ensures r.Success? && r.value.Finished? ==> var (open, close) := ParseWorkingHours(workingHours, false).value;
      StopsAfter(open, close, Step, |r.value.items|) && r.value.items == Labels(Steps(open, Step, |r.value.items|))
    ensures r.Success? ==> var (open, close) := ParseWorkingHours(workingHours, false).value;
      (r.value.Endless? <==> forall k: nat :: Guard(open, close, Step, k))
    ensures r.Success? ==> var (open, close) := ParseWorkingHours(workingHours, false).value;
      NoWrap(open, close, Step) ==> r.value == Finished(WindowLabels(open, close))
  {
    var hours := ParseWorkingHours(workingHours, false);
    if hours.Failure? {
      return Failure(hours.error);
    }
    var (start, end) := hours.value;
    var slots: seq<string> := [];
    var current: TimeOfDay := start;
    var k: nat := 0;
    while k < MinutesPerDay && BeforeOrAt(current, end)
      invariant k <= MinutesPerDay
      invariant current == Cursor(start, Step, k)
      invariant forall j: nat :: j < k ==> Guard(start, end, Step, j)
      invariant slots == Labels(Steps(start, Step, k))
    {
      var next := PlusMinutes(current, Step);
      StepsStep(start, Step, k);
      LabelsStep(Steps(start, Step, k), current, next);
      slots := slots + [Label(current, next)];
      current := next;
      k := k + 1;
    }
    var run: Run<string> := Finished(slots);
    if k == MinutesPerDay {
      NeverStops(start, end, Step);
      run := Endless;
    }
    if NoWrap(start, end, Step) {
      WrittenWalkIsIntervals(start, end, Step);
      var n := |Intervals(start, end, Step)|;
      assert !Guard(start, end, Step, n);
      assert run.Finished?;
      StopsOnce(start, end, Step, |run.items|, n);
      IntervalsWithin(start, end, Step);
    }
    return Success(run);
  }

  /**
   * Each label is the text the reservation screen's card shows for the slot
   * its own generator makes from the same window with d = 30, and each label
   * starts at the time the previous one ends.
   */
  lemma LabelsAreCardTexts(busId: int, date: Day, open: TimeOfDay, close: TimeOfDay, reservations: seq<Reservation>)
    ensures |WindowLabels(open, close)| == |Generated(busId, date, open, close, Step)|
    ensures forall i :: 0 <= i < |WindowLabels(open, close)| ==>
      WindowLabels(open, close)[i] == SlotAvailability.TimeSlotCard(Generated(busId, date, open, close, Step)[i], reservations).text
    ensures forall i :: 0 < i < |WindowLabels(open, close)| ==>
      WindowLabels(open, close)[i][..5] == WindowLabels(open, close)[i - 1][8..]
  {
    IntervalsWithin(open, close, Step);
    Contiguous(open, close, Step);
    var iv := Intervals(open, close, Step);
    var ls := Labels(iv);
    forall i | 0 < i < |ls|
      ensures ls[i][..5] == ls[i - 1][8..]
    {
      assert ls[i][..5] == FormatHHmm(iv[i].0);
      assert ls[i - 1][8..] == FormatHHmm(iv[i - 1].1);
    }
  }

  /** A window with a space around the dash, as "09:00 - 17:00". */
  function Spaced(open: TimeOfDay, close: TimeOfDay): string
  {
    FormatHHmm(open) + " - " + FormatHHmm(close)
  }

  /** The two parts of a spaced window keep their spaces. */
  lemma SpacedParts(open: TimeOfDay, close: TimeOfDay)
    ensures Split(Spaced(open, close), '-') == [FormatHHmm(open) + " ", " " + FormatHHmm(close)]
  {
    var a, b := FormatHHmm(open) + " ", " " + FormatHHmm(close);
    assert Spaced(open, close) == a + ['-'] + b;
    SplitFirst(a, b, '-');
    SplitNone(b, '-');
  }

  /** Trimming strips the spaces again. */
  lemma TrimSpaced(t: TimeOfDay)
    ensures Trim(FormatHHmm(t) + " ") == FormatHHmm(t)
    ensures Trim(" " + FormatHHmm(t)) == FormatHHmm(t)
  {
    TrimPadded(FormatHHmm(t));
  }

  /** Untrimmed, the first part of a spaced window keeps its space and does not parse. */
  lemma SpacedUntrimmed(open: TimeOfDay, close: TimeOfDay)
    ensures ParseWorkingHours(Spaced(open, close), false) == Failure(MalformedTime(FormatHHmm(open) + " "))
  {
    SpacedParts(open, close);
    var parts := [FormatHHmm(open) + " ", " " + FormatHHmm(close)];
    assert ParseHHmm(Prepared(parts[0], false)) == None;
    assert ParseParts(parts, false) == Failure(MalformedTime(parts[0]));
  }

  /** Trimmed, both parts of a spaced window parse to its times. */
  lemma SpacedTrimmed(open: TimeOfDay, close: TimeOfDay)
    ensures ParseWorkingHours(Spaced(open, close), true) == Success((open, close))
  {
    SpacedParts(open, close);
    TrimSpaced(open);
    TrimSpaced(close);
    FormatThenParse(open);
    FormatThenParse(close);
    ParsePair(FormatHHmm(open) + " ", " " + FormatHHmm(close), true, open, close);
  }

  /**
   * Untrimmed parts make a space around the dash an error here, while the
   * reservation screen's generator, which trims, reads the same window.
   */
  lemma SpacedHours(open: TimeOfDay, close: TimeOfDay)
    ensures ParseWorkingHours(Spaced(open, close), false) == Failure(MalformedTime(FormatHHmm(open) + " "))
    ensures ParseWorkingHours(Spaced(open, close), true) == Success((open, close))
  {
    SpacedUntrimmed(open, close);
    SpacedTrimmed(open, close);
  }

  /** "09:00 - 17:00": refused here, read as 09:00 to 17:00 by the reservation screen. */
  lemma SpacedSeedHours()
    ensures ParseWorkingHours("09:00 - 17:00", false) == Failure(MalformedTime("09:00 "))
    ensures ParseWorkingHours("09:00 - 17:00", true) == Success((540, 1020))
  {
    assert FormatHHmm(540) == "09:00" && FormatHHmm(1020) == "17:00";
    SpacedText("09:00 - 17:00", "09:00 ", 540, 1020);
  }

  lemma SpacedText(workingHours: string, openPart: string, open: TimeOfDay, close: TimeOfDay)
    requires workingHours == Spaced(open, close) && openPart == FormatHHmm(open) + " "
    ensures ParseWorkingHours(workingHours, false) == Failure(MalformedTime(openPart))
    ensures ParseWorkingHours(workingHours, true) == Success((open, close))
  {
    SpacedHours(open, close);
  }
}
