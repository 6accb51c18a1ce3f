/**
 * The `timeslot` table behind `TimeSlotDao`: rows keyed by the primary key
 * `tmsId`, with a unique index on (BUS_ID, DATE, START_TIME, END_TIME).
 */
module TimeSlotDao {
  import opened Wrappers
  import opened Entities
  import RowTables

  /** The unique index: no two rows share (busId, date, startTime, endTime). */
  ghost predicate UniqueKeys(rows: map<int, TimeSlot>)
  {
    forall a, b :: a in rows && b in rows && a != b ==> KeyOf(rows[a]) != KeyOf(rows[b])
  }

  /** The table's invariant: each row sits under its own key, below the next AUTOINCREMENT key, and the index holds. */
  ghost predicate WellFormed(rows: map<int, TimeSlot>, nextId: int)
  {
    && nextId >= 1
    && (forall i :: i in rows ==> rows[i].tmsId == i && i < nextId)
    && UniqueKeys(rows)
  }

  /** The primary keys of the rows with key `k`. */
  function IdsWithKey(rows: map<int, TimeSlot>, k: SlotKey): set<int>
  {
    set i | i in rows && KeyOf(rows[i]) == k
  }

  /** Some row has key `k`. */
  predicate HasKey(rows: map<int, TimeSlot>, k: SlotKey)
  {
    exists i :: i in rows && KeyOf(rows[i]) == k
  }

  /** The unique index lets at most one row carry a key. */
  lemma AtMostOneWithKey(rows: map<int, TimeSlot>, k: SlotKey)
    requires UniqueKeys(rows)
    ensures |IdsWithKey(rows, k)| <= 1
    ensures |IdsWithKey(rows, k)| == 1 <==> HasKey(rows, k)
  {
    var ids := IdsWithKey(rows, k);
    if HasKey(rows, k) {
      var i :| i in rows && KeyOf(rows[i]) == k;
      forall j | j in ids
        ensures j == i
      {
        assert KeyOf(rows[j]) == KeyOf(rows[i]);
      }
      assert ids == {i};
    } else {
      forall j | j in rows
        ensures j !in ids
      {
        assert KeyOf(rows[j]) != k;
      }
      assert ids == {};
    }
  }

  /**
   * INSERT OR REPLACE of `slot` stored under `id`: every row that clashes on
   * the primary key or on the unique index is deleted, then the row goes in.
   */
  function Replaced(rows: map<int, TimeSlot>, slot: TimeSlot, id: int): map<int, TimeSlot>
  {
    (map i | i in rows && i != id && KeyOf(rows[i]) != KeyOf(slot) :: rows[i])[id := slot.(tmsId := id)]
  }

  /** The table after `updateStatus(k, status)`: STATUS is rewritten on the row with key `k`, if there is one. */
  function WithStatus(rows: map<int, TimeSlot>, k: SlotKey, status: string): map<int, TimeSlot>
  {
    map i | i in rows :: if KeyOf(rows[i]) == k then rows[i].(status := status) else rows[i]
  }

  /** `updateStatus` changes nothing but STATUS, on no row but the one with key `k`, and keeps the invariant. */
  lemma WithStatusFrame(rows: map<int, TimeSlot>, nextId: int, k: SlotKey, status: string)
    requires WellFormed(rows, nextId)
    ensures WellFormed(WithStatus(rows, k, status), nextId)
    ensures WithStatus(rows, k, status).Keys == rows.Keys
    ensures forall i :: i in rows ==> KeyOf(WithStatus(rows, k, status)[i]) == KeyOf(rows[i])
    ensures forall i :: i in rows && KeyOf(rows[i]) != k ==> WithStatus(rows, k, status)[i] == rows[i]
    ensures !HasKey(rows, k) ==> WithStatus(rows, k, status) == rows
  {
    if !HasKey(rows, k) {
      assert forall i :: i in rows ==> WithStatus(rows, k, status)[i] == rows[i];
    }
  }

  class TimeSlotTable {
    var rows: map<int, TimeSlot>
    var nextId: int

    ghost predicate Valid()
      reads this
    {
      WellFormed(rows, nextId)
    }

    constructor ()
      ensures Valid() && rows == map[] && nextId == 1
    {
      rows := map[];
      nextId := 1;
    }

    /** `isTimeSlotExists`: SELECT COUNT(*) of the rows with that key, which the unique index keeps at 0 or 1. */
    method IsTimeSlotExists(busId: int, date: Day, startTime: string, endTime: string) returns (n: int)
      requires Valid()
      ensures n == |IdsWithKey(rows, SlotKey(busId, date, startTime, endTime))|
      ensures 0 <= n <= 1
      ensures n == 1 <==> HasKey(rows, SlotKey(busId, date, startTime, endTime))
    {
      var k := SlotKey(busId, date, startTime, endTime);
      AtMostOneWithKey(rows, k);
      n := |IdsWithKey(rows, k)|;
    }

    /**
     * `insertTimeSlot` with OnConflictStrategy.REPLACE; returns the row's key.
     * Afterwards exactly one row has the slot's 4-tuple, and it is the new one.
     */
    method InsertTimeSlot(slot: TimeSlot) returns (id: int)
      requires Valid()
      modifies this
      ensures Valid()
      ensures id == RowTables.AssignedId(old(nextId), slot.tmsId)
      ensures nextId == RowTables.NextIdAfter(old(nextId), id)
      ensures rows == Replaced(old(rows), slot, id)
      ensures id in rows && rows[id] == slot.(tmsId := id)
      ensures IdsWithKey(rows, KeyOf(slot)) == {id}
      ensures forall i :: i in old(rows) && i != id && KeyOf(old(rows)[i]) != KeyOf(slot) ==> i in rows && rows[i] == old(rows)[i]
      ensures forall i :: i in rows && i != id ==> i in old(rows) && rows[i] == old(rows)[i]
    {
      id := RowTables.AssignedId(nextId, slot.tmsId);
      rows := Replaced(rows, slot, id);
      nextId := RowTables.NextIdAfter(nextId, id);
    }

    /**
     * `updateTimeSlot` (`@Update`, conflict strategy ABORT): rewrites the row
     * with the same primary key; a change that would break the unique index
     * aborts and changes nothing (`ok` is false).
     */
    method UpdateTimeSlot(slot: TimeSlot) returns (ok: bool)
      requires Valid()
      modifies this
      ensures Valid() && nextId == old(nextId)
      ensures ok <==> !(slot.tmsId in old(rows) && exists i :: i in old(rows) && i != slot.tmsId && KeyOf(old(rows)[i]) == KeyOf(slot))
      ensures rows == if ok && slot.tmsId in old(rows) then old(rows)[slot.tmsId := slot] else old(rows)
    {
      if slot.tmsId in rows {
        if exists i :: i in rows && i != slot.tmsId && KeyOf(rows[i]) == KeyOf(slot) {
          ok := false;
        } else {
          ok := true;
          rows := rows[slot.tmsId := slot];
        }
      } else {
        ok := true;
      }
    }

    /** `updateStatus`: sets STATUS on the row with that 4-tuple; a no-op when no row has it. */
    method UpdateStatus(busId: int, date: Day, startTime: string, endTime: string, status: string)
      requires Valid()
      modifies this
      ensures Valid() && nextId == old(nextId)
      ensures rows == WithStatus(old(rows), SlotKey(busId, date, startTime, endTime), status)
    {
      WithStatusFrame(rows, nextId, SlotKey(busId, date, startTime, endTime), status);
      rows := WithStatus(rows, SlotKey(busId, date, startTime, endTime), status);
    }

    /** `deleteTimeSlot` (`@Delete`): removes the row with that primary key and no other. */
    method DeleteTimeSlot(slot: TimeSlot)
      requires Valid()
      modifies this
      ensures Valid() && nextId == old(nextId)
      ensures rows == old(rows) - {slot.tmsId}
    {
      rows := rows - {slot.tmsId};
    }

    /** `getTimeSlotById`: the row stored under `id`, or null. */
    function GetTimeSlotById(id: int): (r: Option<TimeSlot>)
      requires Valid()
      reads this
      ensures r.Some? <==> id in rows
      ensures r.Some? ==> r.value == rows[id] && r.value.tmsId == id
    {
      if id in rows then Some(rows[id]) else None
    }

    /** `getTimeSlotsByBusinessAndDate`: exactly the rows of that business on that date, in no particular order. */
    function GetTimeSlotsByBusinessAndDate(busId: int, date: Day): (r: set<TimeSlot>)
      reads this
      ensures forall s :: s in r ==> s in rows.Values && s.busId == busId && s.date == date
      ensures forall i :: i in rows && rows[i].busId == busId && rows[i].date == date ==> rows[i] in r
    {
      set i | i in rows && rows[i].busId == busId && rows[i].date == date :: rows[i]
    }

    /** `hasTimeSlotsForDate`: whether the business has any row on that date. */
    function HasTimeSlotsForDate(busId: int, date: Day): (r: bool)
      reads this
      ensures r <==> GetTimeSlotsByBusinessAndDate(busId, date) != {}
    {
      exists i :: i in rows && rows[i].busId == busId && rows[i].date == date
    }

    /** `getTimeSlotStatus`: the STATUS of the row with that 4-tuple, or null. */
    function GetTimeSlotStatus(busId: int, date: Day, startTime: string, endTime: string): (r: Option<string>)
      requires Valid()
      reads this
      ensures r.None? <==> !HasKey(rows, SlotKey(busId, date, startTime, endTime))
      ensures r.Some? ==> exists i :: i in rows && KeyOf(rows[i]) == SlotKey(busId, date, startTime, endTime) && rows[i].status == r.value
    {
      var k := SlotKey(busId, date, startTime, endTime);
      if HasKey(rows, k) then
        var i :| i in rows && KeyOf(rows[i]) == k;
        Some(rows[i].status)
      else None
    }
  }
}
