/**
 * The `reservation` table behind `ReservationDao`.  Rows are kept in
 * primary-key order, which is the order SQLite returns them in; fresh keys
 * are the largest, so an insert with a fresh key appends.
 */
module ReservationDao {
  import opened Wrappers
  import opened Entities
  import opened Seqs
  import RowTables

  /** The table's invariant: ascending unique keys, all below the next AUTOINCREMENT key. */
  ghost predicate WellFormed(rows: seq<Reservation>, nextId: int)
  {
    nextId >= 1 && RowTables.IdsAscending(rows, ResIdOf) && RowTables.IdsBelow(rows, ResIdOf, nextId)
  }

  function OfBusiness(busId: int): Reservation -> bool { (r: Reservation) => r.busId == busId }
  function OfClient(cliId: int): Reservation -> bool { (r: Reservation) => r.cliId == cliId }
  function OfTimeSlot(tmsId: int): Reservation -> bool { (r: Reservation) => r.tmsId == tmsId }

  /** `getReservationById`: the row with that key, or null. */
  function GetReservationById(rows: seq<Reservation>, id: int): (r: Option<Reservation>)
    ensures r.None? <==> forall i :: 0 <= i < |rows| ==> rows[i].resId != id
    ensures r.Some? ==> r.value in rows && r.value.resId == id
  {
    RowTables.FindById(rows, id, ResIdOf)
  }

  /** `getReservationsByClient`: exactly the rows of that client, in table order. */
  function GetReservationsByClient(rows: seq<Reservation>, cliId: int): (r: seq<Reservation>)
    ensures forall i :: 0 <= i < |r| ==> r[i] in rows && r[i].cliId == cliId
    ensures forall i :: 0 <= i < |rows| && rows[i].cliId == cliId ==> rows[i] in r
    ensures forall x :: multiset(r)[x] == if x.cliId == cliId then multiset(rows)[x] else 0
    ensures RowTables.IdsAscending(rows, ResIdOf) ==> RowTables.IdsAscending(r, ResIdOf)
  {
    RowTables.FilterKeepsAscending(rows, OfClient(cliId), ResIdOf);
    Filter(rows, OfClient(cliId))
  }

  /** `getReservationsByBusiness`: exactly the rows of that business, in table order. */
  function GetReservationsByBusiness(rows: seq<Reservation>, busId: int): (r: seq<Reservation>)
    ensures forall i :: 0 <= i < |r| ==> r[i] in rows && r[i].busId == busId
    ensures forall i :: 0 <= i < |rows| && rows[i].busId == busId ==> rows[i] in r
    ensures forall x :: multiset(r)[x] == if x.busId == busId then multiset(rows)[x] else 0
    ensures RowTables.IdsAscending(rows, ResIdOf) ==> RowTables.IdsAscending(r, ResIdOf)
  {
    RowTables.FilterKeepsAscending(rows, OfBusiness(busId), ResIdOf);
    Filter(rows, OfBusiness(busId))
  }

  /** `getReservationsByTimeSlot`: exactly the rows for that slot, in table order. */
  function GetReservationsByTimeSlot(rows: seq<Reservation>, tmsId: int): (r: seq<Reservation>)
    ensures forall i :: 0 <= i < |r| ==> r[i] in rows && r[i].tmsId == tmsId
    ensures forall i :: 0 <= i < |rows| && rows[i].tmsId == tmsId ==> rows[i] in r
    ensures forall x :: multiset(r)[x] == if x.tmsId == tmsId then multiset(rows)[x] else 0
    ensures RowTables.IdsAscending(rows, ResIdOf) ==> RowTables.IdsAscending(r, ResIdOf)
  {
    RowTables.FilterKeepsAscending(rows, OfTimeSlot(tmsId), ResIdOf);
    Filter(rows, OfTimeSlot(tmsId))
  }

  /**
   * The business's list is fixed by its two clauses: any list in key order
   * holding exactly the business's rows, with their multiplicities, is it.
   */
  lemma BusinessListDetermined(rows: seq<Reservation>, busId: int, other: seq<Reservation>)
    requires RowTables.IdsAscending(rows, ResIdOf) && RowTables.IdsAscending(other, ResIdOf)
    requires forall x :: multiset(other)[x] == if x.busId == busId then multiset(rows)[x] else 0
    ensures other == GetReservationsByBusiness(rows, busId)
  {
    var r := GetReservationsByBusiness(rows, busId);
    assert multiset(other) == multiset(r);
    RowTables.AscendingDetermined(other, r, ResIdOf);
  }

  class ReservationTable {
    var rows: seq<Reservation>
    var nextId: int

    ghost predicate Valid()
      reads this
    {
      WellFormed(rows, nextId)
    }

    constructor ()
      ensures Valid() && rows == [] && nextId == 1
    {
      rows := [];
      nextId := 1;
    }

    /**
     * `insertReservation` with OnConflictStrategy.REPLACE; returns the row's
     * key.  Key 0 appends a row under a fresh key; an existing key replaces
     * that row in place.
     */
    method InsertReservation(r: Reservation) returns (id: int)
      requires Valid()
      modifies this
      ensures Valid()
      ensures id == RowTables.AssignedId(old(nextId), r.resId)
      ensures nextId == RowTables.NextIdAfter(old(nextId), id)
      ensures rows == RowTables.Upsert(old(rows), r.(resId := id), ResIdOf)
      ensures r.resId == 0 ==> id == old(nextId) && rows == old(rows) + [r.(resId := id)]
    {
      id := RowTables.AssignedId(nextId, r.resId);
      var stored := r.(resId := id);
      if r.resId == 0 {
        RowTables.UpsertFreshAppends(rows, stored, ResIdOf);
      }
      RowTables.UpsertKeepsAscending(rows, stored, ResIdOf);
      rows := RowTables.Upsert(rows, stored, ResIdOf);
      nextId := RowTables.NextIdAfter(nextId, id);
    }

    /** `updateReservation` (`@Update`): rewrites the row with the same key; every other row is unchanged. */
    method UpdateReservation(r: Reservation)
      requires Valid()
      modifies this
      ensures Valid() && nextId == old(nextId)
      ensures rows == RowTables.ReplaceById(old(rows), r, ResIdOf)
      ensures |rows| == |old(rows)|
      ensures forall i :: 0 <= i < |rows| ==> rows[i] == if old(rows)[i].resId == r.resId then r else old(rows)[i]
    {
      rows := RowTables.ReplaceById(rows, r, ResIdOf);
    }

    /** `deleteReservation` (`@Delete`): removes the row with that key; the rest keep their order. */
    method DeleteReservation(r: Reservation)
      requires Valid()
      modifies this
      ensures Valid() && nextId == old(nextId)
      ensures rows == RowTables.RemoveById(old(rows), r.resId, ResIdOf)
    {
      RowTables.RemoveKeepsAscending(rows, r.resId, ResIdOf);
      rows := RowTables.RemoveById(rows, r.resId, ResIdOf);
    }
  }
}
