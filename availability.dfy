/**
 * What the reservation screen shows about a slot: `isTimeSlotAvailable`, the
 * `TimeSlotCard`, and the row of dates around the selected one.
 */
module SlotAvailability {
  import opened Wrappers
  import opened Entities
  import opened Seqs
  import ReservationDao

  /**
   * `isTimeSlotAvailable`: looks only at the first reservation for the slot in
   * the business's list; the slot is free when there is none or when that one
   * was declined.  The slot's own status is not read.
   */
  function IsTimeSlotAvailable(reservations: seq<Reservation>, slot: TimeSlot): (b: bool)
    ensures b <==>
      (forall i :: 0 <= i < |reservations| ==> reservations[i].tmsId != slot.tmsId) ||
      (exists i :: IsFirst(reservations, ReservationDao.OfTimeSlot(slot.tmsId), i) && reservations[i].status == Declined)
  {
    match Find(reservations, ReservationDao.OfTimeSlot(slot.tmsId))
    case None => true
    case Some(r) => r.status == Declined
  }

  /** Once a reservation for the slot is in the list, nothing after it changes the answer. */
  lemma LaterReservationsIgnored(reservations: seq<Reservation>, later: seq<Reservation>, slot: TimeSlot)
    requires exists i :: 0 <= i < |reservations| && reservations[i].tmsId == slot.tmsId
    ensures IsTimeSlotAvailable(reservations + later, slot) == IsTimeSlotAvailable(reservations, slot)
  {
    FindAppend(reservations, later, ReservationDao.OfTimeSlot(slot.tmsId));
  }

  /** The card's view of a slot: its text, whether it can be picked, and the badge shown when it cannot. */
  datatype SlotCard = SlotCard(text: string, enabled: bool, badge: Option<string>)

  /**
   * `TimeSlotCard`: repeats the availability test on the first reservation of
   * the slot and, when the slot is taken, names that reservation's status.
   */
  function TimeSlotCard(slot: TimeSlot, reservations: seq<Reservation>): (c: SlotCard)
    ensures c.enabled == IsTimeSlotAvailable(reservations, slot)
    ensures c.text == slot.startTime + " - " + slot.endTime
    ensures c.badge.None? <==> c.enabled
    ensures c.badge == Some("Pending") <==>
      exists i :: IsFirst(reservations, ReservationDao.OfTimeSlot(slot.tmsId), i) && reservations[i].status == Pending
    ensures c.badge == Some("Reserved") <==>
      exists i :: IsFirst(reservations, ReservationDao.OfTimeSlot(slot.tmsId), i) && reservations[i].status == Accepted
    ensures c.badge == Some("Unavailable") <==>
      exists i :: IsFirst(reservations, ReservationDao.OfTimeSlot(slot.tmsId), i) &&
        reservations[i].status !in {Pending, Accepted, Declined}
  {
    var reservation := Find(reservations, ReservationDao.OfTimeSlot(slot.tmsId));
    var isAvailable := reservation.None? || reservation.value.status == Declined;
    var badge :=
      if isAvailable then None
      else if reservation.value.status == Pending then Some("Pending")
      else if reservation.value.status == Accepted then Some("Reserved")
      else Some("Unavailable");
    SlotCard(slot.startTime + " - " + slot.endTime, isAvailable, badge)
  }

  /**
   * The days from `lo` to `hi`, in ascending order, that are not before
   * `today`.
   */
  function DaysFrom(lo: Day, hi: Day, today: Day): (r: seq<Day>)
    ensures forall i :: 0 <= i < |r| ==> lo <= r[i] <= hi && today <= r[i]
    ensures forall i, j :: 0 <= i < j < |r| ==> r[i] < r[j]
    ensures forall d :: lo <= d <= hi && today <= d ==> d in r
    ensures lo <= hi + 1 ==> |r| <= hi - lo + 1
    ensures lo <= hi + 1 && today <= lo ==> |r| == hi - lo + 1
    decreases hi - lo
  {
    if lo > hi then []
    else if lo >= today then [lo] + DaysFrom(lo + 1, hi, today)
    else DaysFrom(lo + 1, hi, today)
  }

  /**
   * `visibleDates`: the selected date and the three days either side of it,
   * ascending, dropping those before today.
   */
  function VisibleDates(selected: Day, today: Day): (r: seq<Day>)
    ensures forall d :: d in r <==> selected - 3 <= d <= selected + 3 && today <= d
    ensures forall i, j :: 0 <= i < j < |r| ==> r[i] < r[j]
    ensures |r| <= 7
    ensures today <= selected - 3 ==> |r| == 7
    ensures today <= selected ==> selected in r
  {
    DaysFrom(selected - 3, selected + 3, today)
  }

  // The corrected availability rule.

  /** No reservation for the slot is pending or accepted: every one of them was declined. */
  predicate SlotIsFree(reservations: seq<Reservation>, tmsId: int)
  {
    forall i :: 0 <= i < |reservations| && reservations[i].tmsId == tmsId ==> reservations[i].status == Declined
  }

  /** Each slot has at most one reservation that was not declined. */
  predicate AtMostOneActive(reservations: seq<Reservation>)
  {
    forall i, j :: 0 <= i < j < |reservations| && reservations[i].tmsId == reservations[j].tmsId ==>
      reservations[i].status == Declined || reservations[j].status == Declined
  }

  /** A free slot is one the screen also shows as available. */
  lemma FreeIsAvailable(reservations: seq<Reservation>, slot: TimeSlot)
    requires SlotIsFree(reservations, slot.tmsId)
    ensures IsTimeSlotAvailable(reservations, slot)
  {
    if exists i :: 0 <= i < |reservations| && reservations[i].tmsId == slot.tmsId {
      var r := Find(reservations, ReservationDao.OfTimeSlot(slot.tmsId));
      var i :| IsFirst(reservations, ReservationDao.OfTimeSlot(slot.tmsId), i) && reservations[i] == r.value;
      assert reservations[i].tmsId == slot.tmsId;
    }
  }

  /**
   * Booking only free slots keeps at most one live reservation per slot:
   * appending a new reservation for a free slot preserves `AtMostOneActive`.
   */
  lemma BookingFreeSlotKeepsOneActive(reservations: seq<Reservation>, r: Reservation)
    requires AtMostOneActive(reservations)
    requires SlotIsFree(reservations, r.tmsId)
    ensures AtMostOneActive(reservations + [r])
  {
    var s := reservations + [r];
    forall i, j | 0 <= i < j < |s| && s[i].tmsId == s[j].tmsId
      ensures s[i].status == Declined || s[j].status == Declined
    {
      if j == |reservations| {
        assert s[i] == reservations[i];
      } else {
        assert s[i] == reservations[i] && s[j] == reservations[j];
      }
    }
  }

  /**
   * As written, a declined first reservation hides a later pending one: with
   * [declined, pending] for slot 5 the screen offers the slot again, and a
   * third booking leaves two live reservations for it.  The corrected rule
   * refuses it.
   */
  lemma DeclinedHidesPending()
    ensures var slot := TimeSlot(5, 1, 0, "09:00", "09:30", SlotReserved);
      var rs := [Reservation(1, 2, 1, 5, Declined, 0), Reservation(2, 3, 1, 5, Pending, 0)];
      && AtMostOneActive(rs)
      && IsTimeSlotAvailable(rs, slot)
      && !AtMostOneActive(rs + [Reservation(3, 4, 1, 5, Pending, 0)])
      && !SlotIsFree(rs, slot.tmsId)
  {
    var slot := TimeSlot(5, 1, 0, "09:00", "09:30", SlotReserved);
    var rs := [Reservation(1, 2, 1, 5, Declined, 0), Reservation(2, 3, 1, 5, Pending, 0)];
    assert IsFirst(rs, ReservationDao.OfTimeSlot(5), 0);
    var s := rs + [Reservation(3, 4, 1, 5, Pending, 0)];
    assert s[1].tmsId == s[2].tmsId && s[1].status != Declined && s[2].status != Declined;
  }
}
