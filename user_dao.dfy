/** The `user` table behind `UserDao`, kept in primary-key order. */
module UserDao {
  import opened Wrappers
  import opened Entities
  import opened Seqs
  import RowTables

  /** The table's invariant: ascending unique keys, all below the next AUTOINCREMENT key. */
  ghost predicate WellFormed(rows: seq<User>, nextId: int)
  {
    nextId >= 1 && RowTables.IdsAscending(rows, UsrIdOf) && RowTables.IdsBelow(rows, UsrIdOf, nextId)
  }

  function Credentials(username: string, password: string): User -> bool
  {
    (u: User) => u.username == username && u.password == password
  }

  /**
   * `authenticateUser`: the first row, in table order, whose USERNAME and
   * PASSWORD both equal the arguments, or null.
   */
  function AuthenticateUser(rows: seq<User>, username: string, password: string): (r: Option<User>)
    ensures r.None? <==> forall i :: 0 <= i < |rows| ==> rows[i].username != username || rows[i].password != password
    ensures r.Some? ==> r.value in rows && r.value.username == username && r.value.password == password
  {
    Find(rows, Credentials(username, password))
  }

  /** `getUserById`: the row with that key, or null. */
  function GetUserById(rows: seq<User>, id: int): (r: Option<User>)
    ensures r.None? <==> forall i :: 0 <= i < |rows| ==> rows[i].usrId != id
    ensures r.Some? ==> r.value in rows && r.value.usrId == id
  {
    RowTables.FindById(rows, id, UsrIdOf)
  }

  class UserTable {
    var rows: seq<User>
    var nextId: int

    ghost predicate Valid()
      reads this
    {
      WellFormed(rows, nextId)
    }

    constructor ()
      ensures Valid() && rows == [] && nextId == 1
    {
      rows := [];
      nextId := 1;
    }

    /**
     * `insertUser` with OnConflictStrategy.REPLACE; returns the row's key.
     * Key 0 appends the user under a fresh, positive key.
     */
    method InsertUser(u: User) returns (id: int)
      requires Valid()
      modifies this
      ensures Valid()
      ensures id == RowTables.AssignedId(old(nextId), u.usrId)
      ensures nextId == RowTables.NextIdAfter(old(nextId), id)
      ensures rows == RowTables.Upsert(old(rows), u.(usrId := id), UsrIdOf)
      ensures u.usrId == 0 ==> id == old(nextId) && id > 0 && rows == old(rows) + [u.(usrId := id)]
    {
      id := RowTables.AssignedId(nextId, u.usrId);
      var stored := u.(usrId := id);
      if u.usrId == 0 {
        RowTables.UpsertFreshAppends(rows, stored, UsrIdOf);
      }
      RowTables.UpsertKeepsAscending(rows, stored, UsrIdOf);
      rows := RowTables.Upsert(rows, stored, UsrIdOf);
      nextId := RowTables.NextIdAfter(nextId, id);
    }

    /** `updateUser` (`@Update`): rewrites the row with the same key; every other row is unchanged. */
    method UpdateUser(u: User)
      requires Valid()
      modifies this
      ensures Valid() && nextId == old(nextId)
      ensures |rows| == |old(rows)|
      ensures forall i :: 0 <= i < |rows| ==> rows[i] == if old(rows)[i].usrId == u.usrId then u else old(rows)[i]
    {
      rows := RowTables.ReplaceById(rows, u, UsrIdOf);
    }

    /** `deleteUser` (`@Delete`): removes the row with that key; the rest keep their order. */
    method DeleteUser(u: User)
      requires Valid()
      modifies this
      ensures Valid() && nextId == old(nextId)
      ensures rows == RowTables.RemoveById(old(rows), u.usrId, UsrIdOf)
    {
      RowTables.RemoveKeepsAscending(rows, u.usrId, UsrIdOf);
      rows := RowTables.RemoveById(rows, u.usrId, UsrIdOf);
    }
  }
}
