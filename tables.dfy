/**
 * Row-level behaviour shared by the Room tables whose primary key is an
 * auto-generated integer (`@PrimaryKey(autoGenerate = true)`).  SQLite keeps
 * such a table in primary-key (rowid) order, and a query without ORDER BY
 * returns its rows in that order, so a table is a sequence with ascending ids.
 */
module RowTables {
  import opened Wrappers
  import opened Seqs

  /** The rows are in strictly ascending primary-key order (so keys are unique). */
  ghost predicate IdsAscending<T>(rows: seq<T>, id: T -> int)
  {
    forall i, j :: 0 <= i < j < |rows| ==> id(rows[i]) < id(rows[j])
  }

  /** Every key in use is below the next key AUTOINCREMENT would hand out. */
  ghost predicate IdsBelow<T>(rows: seq<T>, id: T -> int, nextId: int)
  {
    forall i :: 0 <= i < |rows| ==> id(rows[i]) < nextId
  }

  /**
   * The key a row is stored under: Room binds a key of 0 as NULL
   * (`nullif(?, 0)`), for which AUTOINCREMENT hands out the next key.
   */
  function AssignedId(nextId: int, requested: int): (id: int)
    ensures requested != 0 ==> id == requested
  {
    if requested == 0 then nextId else requested
  }

  /** In an ascending table, every row after the first has a larger key than the first. */
  lemma AscendingHead<T>(rows: seq<T>, x: T, id: T -> int)
    requires IdsAscending(rows, id) && |rows| > 0 && x in rows[1..]
    ensures id(rows[0]) < id(x)
  {
    var j :| 0 <= j < |rows[1..]| && rows[1..][j] == x;
    assert rows[j + 1] == x;
  }

  /** AUTOINCREMENT's next key after storing a row under `id`. */
  function NextIdAfter(nextId: int, id: int): (n: int)
    ensures n >= nextId && n > id
    ensures id < nextId ==> n == nextId
  {
    if id >= nextId then id + 1 else nextId
  }

  /**
   * INSERT OR REPLACE on the primary key: the row with the same key, if any,
   * is replaced where it stood; otherwise the row goes in at its key's place.
   */
  function Upsert<T>(rows: seq<T>, r: T, id: T -> int): (out: seq<T>)
    ensures r in out
    ensures forall i :: 0 <= i < |out| ==> out[i] == r || out[i] in rows
    ensures forall i :: 0 <= i < |rows| && id(rows[i]) != id(r) ==> rows[i] in out
  {
    if |rows| == 0 then [r]
    else if id(rows[0]) == id(r) then [r] + rows[1..]
    else if id(r) < id(rows[0]) then [r] + rows
    else
      [rows[0]] + Upsert(rows[1..], r, id)
  }

  /**
   * On a table with ascending keys, INSERT OR REPLACE keeps the keys
   * ascending, so the new row is the only one under its key: a row that had
   * the key before is gone.
   */
  lemma UpsertKeepsAscending<T>(rows: seq<T>, r: T, id: T -> int)
    requires IdsAscending(rows, id)
    ensures IdsAscending(Upsert(rows, r, id), id)
    ensures forall i :: 0 <= i < |Upsert(rows, r, id)| ==> Upsert(rows, r, id)[i] == r || id(Upsert(rows, r, id)[i]) != id(r)
  {
    UpsertAscending(rows, r, id);
    var out := Upsert(rows, r, id);
    var p :| 0 <= p < |out| && out[p] == r;
    forall i | 0 <= i < |out| && out[i] != r
      ensures id(out[i]) != id(r)
    {
      assert i != p;
    }
  }

  lemma {:induction false} UpsertAscending<T>(rows: seq<T>, r: T, id: T -> int)
    requires IdsAscending(rows, id)
    ensures IdsAscending(Upsert(rows, r, id), id)
  {
    if |rows| > 0 {
      AscendingTail(rows, id);
      if id(rows[0]) == id(r) {
        ConsAscending(r, rows[1..], id);
      } else if id(r) < id(rows[0]) {
        ConsAscending(r, rows, id);
      } else {
        var tail := Upsert(rows[1..], r, id);
        UpsertAscending(rows[1..], r, id);
        forall i | 0 <= i < |tail|
          ensures id(rows[0]) < id(tail[i])
        {
          if tail[i] != r {
            AscendingHead(rows, tail[i], id);
          }
        }
        ConsAscending(rows[0], tail, id);
      }
    }
  }

  /**
   * A row whose key is above every key in the table (the key AUTOINCREMENT
   * hands out for key 0) goes at the end.
   */
  lemma {:induction false} UpsertFreshAppends<T>(rows: seq<T>, r: T, id: T -> int)
    requires IdsBelow(rows, id, id(r))
    ensures Upsert(rows, r, id) == rows + [r]
  {
    if |rows| > 0 {
      assert IdsBelow(rows[1..], id, id(r)) by {
        forall i | 0 <= i < |rows[1..]| ensures id(rows[1..][i]) < id(r) {
          assert rows[1..][i] == rows[i + 1];
        }
      }
      UpsertFreshAppends(rows[1..], r, id);
      assert [rows[0]] + (rows[1..] + [r]) == rows + [r];
    }
  }

  /** Dropping the first row keeps the keys ascending. */
  lemma AscendingTail<T>(rows: seq<T>, id: T -> int)
    requires IdsAscending(rows, id) && |rows| > 0
    ensures IdsAscending(rows[1..], id)
    ensures forall i :: 0 <= i < |rows[1..]| ==> id(rows[0]) < id(rows[1..][i])
  {
    forall i, j | 0 <= i < j < |rows[1..]|
      ensures id(rows[1..][i]) < id(rows[1..][j])
    {
      assert rows[1..][i] == rows[i + 1] && rows[1..][j] == rows[j + 1];
    }
    forall i | 0 <= i < |rows[1..]|
      ensures id(rows[0]) < id(rows[1..][i])
    {
      assert rows[1..][i] == rows[i + 1];
    }
  }

  /** A query's `filter` keeps the rows in the table's key order. */
  lemma {:induction false} FilterKeepsAscending<T(!new)>(rows: seq<T>, p: T -> bool, id: T -> int)
    ensures IdsAscending(rows, id) ==> IdsAscending(Filter(rows, p), id)
  {
    if |rows| > 0 && IdsAscending(rows, id) {
      AscendingTail(rows, id);
      FilterKeepsAscending(rows[1..], p, id);
      if p(rows[0]) {
        var tail := Filter(rows[1..], p);
        forall i | 0 <= i < |tail|
          ensures id(rows[0]) < id(tail[i])
        {
          AscendingHead(rows, tail[i], id);
        }
        ConsAscending(rows[0], tail, id);
      }
    }
  }

  /**
   * Two tables with ascending keys and the same rows, counted with
   * multiplicity, are the same sequence: key order fixes the row order.
   */
  lemma {:induction false} AscendingDetermined<T>(a: seq<T>, b: seq<T>, id: T -> int)
    requires IdsAscending(a, id) && IdsAscending(b, id)
    requires multiset(a) == multiset(b)
    ensures a == b
  {
    if |a| == 0 || |b| == 0 {
      assert |multiset(a)| == |a| && |multiset(b)| == |b|;
    } else {
      SameFirst(a, b, id);
      SameRest(a, b);
      AscendingTail(a, id);
      AscendingTail(b, id);
      AscendingDetermined(a[1..], b[1..], id);
      assert a == [a[0]] + a[1..] && b == [b[0]] + b[1..];
    }
  }

  /** Of two ascending tables with the same rows, the first rows agree. */
  lemma SameFirst<T>(a: seq<T>, b: seq<T>, id: T -> int)
    requires IdsAscending(a, id) && IdsAscending(b, id)
    requires multiset(a) == multiset(b) && |a| > 0 && |b| > 0
    ensures a[0] == b[0]
  {
    assert a[0] in multiset(b) && b[0] in multiset(a);
  }

  /** Taking the same first row off two sequences with the same rows leaves the same rows. */
  lemma SameRest<T>(a: seq<T>, b: seq<T>)
    requires multiset(a) == multiset(b) && |a| > 0 && |b| > 0 && a[0] == b[0]
    ensures multiset(a[1..]) == multiset(b[1..])
  {
    assert a == [a[0]] + a[1..] && b == [b[0]] + b[1..];
    assert multiset(a) == multiset{a[0]} + multiset(a[1..]);
    assert multiset(b) == multiset{b[0]} + multiset(b[1..]);
    assert multiset(a[1..]) == multiset(a) - multiset{a[0]};
    assert multiset(b[1..]) == multiset(b) - multiset{b[0]};
  }

  /** A row keyed below every key of an ascending table can go in front. */
  lemma ConsAscending<T>(x: T, rows: seq<T>, id: T -> int)
    requires IdsAscending(rows, id)
    requires forall i :: 0 <= i < |rows| ==> id(x) < id(rows[i])
    ensures IdsAscending([x] + rows, id)
  {
    var s := [x] + rows;
    forall i, j | 0 <= i < j < |s|
      ensures id(s[i]) < id(s[j])
    {
      assert s[j] == rows[j - 1];
      if i > 0 {
        assert s[i] == rows[i - 1];
      }
    }
  }

  /** `@Update`: the row with the same key is rewritten; nothing else changes. */
  function ReplaceById<T>(rows: seq<T>, r: T, id: T -> int): (out: seq<T>)
  {
    seq(|rows|, i requires 0 <= i < |rows| => if id(rows[i]) == id(r) then r else rows[i])
  }

  /** `@Delete`: the row with key `k` goes; the others keep their order. */
  function RemoveById<T>(rows: seq<T>, k: int, id: T -> int): (out: seq<T>)
    ensures |out| <= |rows|
    ensures forall i :: 0 <= i < |out| ==> out[i] in rows && id(out[i]) != k
    ensures forall i :: 0 <= i < |rows| && id(rows[i]) != k ==> rows[i] in out
  {
    if |rows| == 0 then []
    else
      var tail := RemoveById(rows[1..], k, id);
      if id(rows[0]) == k then tail else [rows[0]] + tail
  }

  /** Deleting keeps the remaining keys in ascending order. */
  lemma {:induction false} RemoveKeepsAscending<T>(rows: seq<T>, k: int, id: T -> int)
    requires IdsAscending(rows, id)
    ensures IdsAscending(RemoveById(rows, k, id), id)
  {
    if |rows| > 0 {
      var tail := RemoveById(rows[1..], k, id);
      assert IdsAscending(rows[1..], id);
      RemoveKeepsAscending(rows[1..], k, id);
      if id(rows[0]) != k {
        forall i | 0 <= i < |tail|
          ensures id(rows[0]) < id(tail[i])
        {
          AscendingHead(rows, tail[i], id);
        }
      }
    }
  }

  /** `SELECT * ... WHERE key = :id`: the row stored under `k`, or null. */
  function FindById<T>(rows: seq<T>, k: int, id: T -> int): (r: Option<T>)
    ensures r.None? <==> forall i :: 0 <= i < |rows| ==> id(rows[i]) != k
    ensures r.Some? ==> r.value in rows && id(r.value) == k
  {
    if |rows| == 0 then None
    else if id(rows[0]) == k then Some(rows[0])
    else FindById(rows[1..], k, id)
  }
}
