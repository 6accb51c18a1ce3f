/**
 * The writes of the reservation screen: materialising the generated slots
 * with check-then-insert, and the Reserve button.
 */
module Booking {
  import opened Wrappers
  import opened Entities
  import opened Seqs
  import RowTables
  import opened TimeSlotDao
  import ReservationDao
  import opened SlotAvailability

  /** The slot statuses the screens write: "available" on creation, "reserved" on booking, "pending" reserved by the entity. */
  predicate KnownSlotStatus(status: string)
  {
    status == SlotAvailable || status == Pending || status == SlotReserved
  }

  ghost predicate StatusesKnown(rows: map<int, TimeSlot>)
  {
    forall i :: i in rows ==> KnownSlotStatus(rows[i].status)
  }

  /**
   * One materialisation step on the slot table, as a value: the slot goes in
   * (as `insertTimeSlot` would store it) only when no row has its 4-tuple.
   */
  function InsertIfAbsent(store: (map<int, TimeSlot>, int), slot: TimeSlot): (map<int, TimeSlot>, int)
  {
    if HasKey(store.0, KeyOf(slot)) then store
    else
      var id := RowTables.AssignedId(store.1, slot.tmsId);
      (Replaced(store.0, slot, id), RowTables.NextIdAfter(store.1, id))
  }

  /** The table after the check-then-insert loop over `slots`, in order. */
  function Materialised(store: (map<int, TimeSlot>, int), slots: seq<TimeSlot>): (map<int, TimeSlot>, int)
  {
    if |slots| == 0 then store
    else InsertIfAbsent(Materialised(store, slots[..|slots| - 1]), slots[|slots| - 1])
  }

  /** New slots only: key 0, so the table picks the row's key. */
  predicate AllNew(slots: seq<TimeSlot>)
  {
    forall i :: 0 <= i < |slots| ==> slots[i].tmsId == 0
  }

  /**
   * A step of new slots keeps the invariant, leaves every existing row as it
   * was, and ends with a row for the slot's 4-tuple.
   */
  lemma InsertIfAbsentFrame(store: (map<int, TimeSlot>, int), slot: TimeSlot)
    requires WellFormed(store.0, store.1)
    requires slot.tmsId == 0
    ensures WellFormed(InsertIfAbsent(store, slot).0, InsertIfAbsent(store, slot).1)
    ensures forall i :: i in store.0 ==> i in InsertIfAbsent(store, slot).0 && InsertIfAbsent(store, slot).0[i] == store.0[i]
    ensures HasKey(InsertIfAbsent(store, slot).0, KeyOf(slot))
    ensures StatusesKnown(store.0) && KnownSlotStatus(slot.status) ==> StatusesKnown(InsertIfAbsent(store, slot).0)
  {
    if !HasKey(store.0, KeyOf(slot)) {
      var id := store.1;
      var rows := Replaced(store.0, slot, id);
      assert rows[id] == slot.(tmsId := id);
      forall i | i in store.0
        ensures i in rows && rows[i] == store.0[i]
      {
        assert KeyOf(store.0[i]) != KeyOf(slot);
      }
    }
  }

  /**
   * Materialising new slots keeps the invariant, keeps every existing row,
   * and leaves a row for every generated slot's 4-tuple.
   */
  lemma {:induction false} MaterialisedCovers(store: (map<int, TimeSlot>, int), slots: seq<TimeSlot>)
    requires WellFormed(store.0, store.1)
    requires AllNew(slots)
    ensures WellFormed(Materialised(store, slots).0, Materialised(store, slots).1)
    ensures forall i :: i in store.0 ==> i in Materialised(store, slots).0 && Materialised(store, slots).0[i] == store.0[i]
    ensures forall j :: 0 <= j < |slots| ==> HasKey(Materialised(store, slots).0, KeyOf(slots[j]))
    ensures StatusesKnown(store.0) && (forall j :: 0 <= j < |slots| ==> KnownSlotStatus(slots[j].status)) ==>
      StatusesKnown(Materialised(store, slots).0)
  {
    if |slots| > 0 {
      var init := slots[..|slots| - 1];
      var last := slots[|slots| - 1];
      MaterialisedCovers(store, init);
      var mid := Materialised(store, init);
      InsertIfAbsentFrame(mid, last);
      var out := InsertIfAbsent(mid, last);
      forall j | 0 <= j < |init|
        ensures HasKey(out.0, KeyOf(slots[j]))
      {
        assert init[j] == slots[j];
        var i :| i in mid.0 && KeyOf(mid.0[i]) == KeyOf(slots[j]);
        assert i in out.0 && out.0[i] == mid.0[i];
      }
    }
  }

  /** When every slot's 4-tuple is already there, materialising changes nothing. */
  lemma {:induction false} MaterialisedPresent(store: (map<int, TimeSlot>, int), slots: seq<TimeSlot>)
    requires forall j :: 0 <= j < |slots| ==> HasKey(store.0, KeyOf(slots[j]))
    ensures Materialised(store, slots) == store
  {
    if |slots| > 0 {
      MaterialisedPresent(store, slots[..|slots| - 1]);
    }
  }

  /** Materialising the same slots twice adds nothing the second time. */
  lemma MaterialiseIdempotent(store: (map<int, TimeSlot>, int), slots: seq<TimeSlot>)
    requires WellFormed(store.0, store.1)
    requires AllNew(slots)
    ensures Materialised(Materialised(store, slots), slots) == Materialised(store, slots)
  {
    MaterialisedCovers(store, slots);
    MaterialisedPresent(Materialised(store, slots), slots);
  }

  /**
   * The `LaunchedEffect` loop: for each generated slot, ask
   * `isTimeSlotExists` and insert the slot when the count is zero.
   */
  method MaterialiseSlots(table: TimeSlotTable, slots: seq<TimeSlot>)
    requires table.Valid()
    modifies table
    ensures table.Valid()
    ensures (table.rows, table.nextId) == Materialised(old((table.rows, table.nextId)), slots)
  {
    ghost var start := (table.rows, table.nextId);
    for i := 0 to |slots|
      invariant table.Valid()
      invariant (table.rows, table.nextId) == Materialised(start, slots[..i])
    {
      var slot := slots[i];
      var count := table.IsTimeSlotExists(slot.busId, slot.date, slot.startTime, slot.endTime);
      if count == 0 {
        var _ := table.InsertTimeSlot(slot);
      }
      assert slots[..i + 1][..i] == slots[..i];
    }
    assert slots[..|slots|] == slots;
  }

  /** The client the reservation is made for: the logged-in user, or user 1 when nobody is logged in (-1). */
  function ClientOf(loggedInUserId: int): (cliId: int)
    ensures cliId != -1
    ensures loggedInUserId != -1 ==> cliId == loggedInUserId
  {
    if loggedInUserId != -1 then loggedInUserId else 1
  }

  /** The reservation the Reserve button creates: pending, for the slot, made today. */
  function NewReservation(busId: int, slot: TimeSlot, loggedInUserId: int, today: Day): Reservation
  {
    Reservation(0, ClientOf(loggedInUserId), busId, slot.tmsId, Pending, today)
  }

  /** What pressing Reserve did. */
  datatype BookingOutcome = NothingSelected | SlotTaken | Booked(resId: int)

  /**
   * The Reserve button is enabled exactly for a selected slot that shows as
   * available: it agrees with the slot's card, it is never enabled while the
   * slot's first reservation is pending or accepted, and it is enabled for a
   * selected slot nobody has booked.
   */
  function ReserveEnabled(selected: Option<TimeSlot>, businessReservations: seq<Reservation>): (b: bool)
    ensures selected.Some? ==> (b <==> TimeSlotCard(selected.value, businessReservations).enabled)
    ensures b ==> selected.Some? && !exists i ::
      IsFirst(businessReservations, ReservationDao.OfTimeSlot(selected.value.tmsId), i) &&
      businessReservations[i].status in {Pending, Accepted}
    ensures selected.Some? ==>
      (forall i :: 0 <= i < |businessReservations| ==> businessReservations[i].tmsId != selected.value.tmsId) ==> b
  {
    selected != None && IsTimeSlotAvailable(businessReservations, selected.value)
  }

  /**
   * The Reserve button: for a selected slot that shows as available, mark the
   * row with its 4-tuple "reserved", then append a pending reservation for
   * it; for a taken slot write nothing.
   */
  method Reserve(slots: TimeSlotTable, reservations: ReservationDao.ReservationTable, busId: int,
                 selected: Option<TimeSlot>, loggedInUserId: int, today: Day)
    returns (outcome: BookingOutcome)
    requires slots.Valid() && reservations.Valid()
    modifies slots, reservations
    ensures slots.Valid() && reservations.Valid()
    ensures outcome.Booked? <==>
      ReserveEnabled(selected, ReservationDao.GetReservationsByBusiness(old(reservations.rows), busId))
    ensures selected.None? ==> outcome == NothingSelected
    ensures !outcome.Booked? ==> slots.rows == old(slots.rows) && reservations.rows == old(reservations.rows)
    ensures !outcome.Booked? ==> slots.nextId == old(slots.nextId) && reservations.nextId == old(reservations.nextId)
    ensures outcome.Booked? ==>
      && slots.rows == WithStatus(old(slots.rows), KeyOf(selected.value), SlotReserved)
      && slots.nextId == old(slots.nextId)
      && outcome.resId == old(reservations.nextId)
      && reservations.rows == old(reservations.rows) + [NewReservation(busId, selected.value, loggedInUserId, today).(resId := outcome.resId)]
  {
    if selected.None? {
      return NothingSelected;
    }
    var slot := selected.value;
    var businessReservations := ReservationDao.GetReservationsByBusiness(reservations.rows, busId);
    if !IsTimeSlotAvailable(businessReservations, slot) {
      return SlotTaken;
    }
    slots.UpdateStatus(slot.busId, slot.date, slot.startTime, slot.endTime, SlotReserved);
    var id := reservations.InsertReservation(NewReservation(busId, slot, loggedInUserId, today));
    return Booked(id);
  }

  /**
   * The corrected Reserve button: it books only a slot whose reservations in
   * the business's list were all declined, so a business list with at most
   * one live reservation per slot keeps that property.
   */
  method ReserveFreeSlot(slots: TimeSlotTable, reservations: ReservationDao.ReservationTable, busId: int,
                         selected: Option<TimeSlot>, loggedInUserId: int, today: Day)
    returns (outcome: BookingOutcome)
    requires slots.Valid() && reservations.Valid()
    modifies slots, reservations
    ensures slots.Valid() && reservations.Valid()
    ensures outcome.Booked? <==>
      selected.Some? && SlotIsFree(ReservationDao.GetReservationsByBusiness(old(reservations.rows), busId), selected.value.tmsId)
    ensures selected.None? ==> outcome == NothingSelected
    ensures !outcome.Booked? ==> slots.rows == old(slots.rows) && reservations.rows == old(reservations.rows)
    ensures !outcome.Booked? ==> slots.nextId == old(slots.nextId) && reservations.nextId == old(reservations.nextId)
    ensures outcome.Booked? ==>
      && slots.rows == WithStatus(old(slots.rows), KeyOf(selected.value), SlotReserved)
      && slots.nextId == old(slots.nextId)
      && outcome.resId == old(reservations.nextId)
      && reservations.rows == old(reservations.rows) + [NewReservation(busId, selected.value, loggedInUserId, today).(resId := outcome.resId)]
    ensures AtMostOneActive(ReservationDao.GetReservationsByBusiness(old(reservations.rows), busId)) ==>
      AtMostOneActive(ReservationDao.GetReservationsByBusiness(reservations.rows, busId))
  {
    if selected.None? {
      return NothingSelected;
    }
    var slot := selected.value;
    var businessReservations := ReservationDao.GetReservationsByBusiness(reservations.rows, busId);
    if !SlotIsFree(businessReservations, slot.tmsId) {
      return SlotTaken;
    }
    var r := NewReservation(busId, slot, loggedInUserId, today);
    slots.UpdateStatus(slot.busId, slot.date, slot.startTime, slot.endTime, SlotReserved);
    var id := reservations.InsertReservation(r);
    if AtMostOneActive(businessReservations) {
      CorrectedBookingKeepsOneActive(old(reservations.rows), busId, r.(resId := id));
    }
    return Booked(id);
  }

  /** The business list after appending one of its reservations grows by that reservation. */
  lemma BusinessListAppend(rows: seq<Reservation>, busId: int, r: Reservation)
    requires r.busId == busId
    ensures ReservationDao.GetReservationsByBusiness(rows + [r], busId) == ReservationDao.GetReservationsByBusiness(rows, busId) + [r]
  {
    FilterAppend(rows, [r], ReservationDao.OfBusiness(busId));
    assert Filter([r], ReservationDao.OfBusiness(busId)) == [r];
  }

  /**
   * A slot booked for the first time shows as taken afterwards: the new
   * pending reservation is then the first for the slot in the business's list.
   */
  lemma FirstBookingTakesSlot(rows: seq<Reservation>, busId: int, r: Reservation, slot: TimeSlot)
    requires r.busId == busId && r.tmsId == slot.tmsId && r.status == Pending
    requires forall i :: 0 <= i < |rows| ==> rows[i].tmsId != slot.tmsId
    ensures !IsTimeSlotAvailable(ReservationDao.GetReservationsByBusiness(rows + [r], busId), slot)
  {
    var before := ReservationDao.GetReservationsByBusiness(rows, busId);
    BusinessListAppend(rows, busId, r);
    FindAppend(before, [r], ReservationDao.OfTimeSlot(slot.tmsId));
    assert Find([r], ReservationDao.OfTimeSlot(slot.tmsId)) == Some(r);
    assert forall i :: 0 <= i < |before| ==> before[i].tmsId != slot.tmsId;
  }

  /**
   * With the corrected guard, booking keeps at most one live reservation per
   * slot in the business's list.
   */
  lemma CorrectedBookingKeepsOneActive(rows: seq<Reservation>, busId: int, r: Reservation)
    requires r.busId == busId
    requires AtMostOneActive(ReservationDao.GetReservationsByBusiness(rows, busId))
    requires SlotIsFree(ReservationDao.GetReservationsByBusiness(rows, busId), r.tmsId)
    ensures AtMostOneActive(ReservationDao.GetReservationsByBusiness(rows + [r], busId))
  {
    BusinessListAppend(rows, busId, r);
    BookingFreeSlotKeepsOneActive(ReservationDao.GetReservationsByBusiness(rows, busId), r);
  }

  /** Booking writes only known statuses into the slot table. */
  lemma BookingKeepsStatusesKnown(rows: map<int, TimeSlot>, k: SlotKey)
    requires StatusesKnown(rows)
    ensures StatusesKnown(WithStatus(rows, k, SlotReserved))
  {
  }
}
