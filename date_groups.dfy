/**
 * How both reservation lists are shown: grouped by the day the reservation
 * was made (`groupBy { it.createdAt }`), groups in reverse chronological
 * order (`keys.sortedDescending()`), each headed by `formatDate`.
 */
module DateGroups {
  import opened Entities
  import opened Seqs

  /** Reservations made on `date`. */
  function CreatedOn(date: Day): Reservation -> bool
  {
    (r: Reservation) => r.createdAt == date
  }

  predicate StrictlyDescending(ds: seq<Day>)
  {
    forall i, j :: 0 <= i < j < |ds| ==> ds[i] > ds[j]
  }

  /** Puts `x` into a strictly descending list, unless it is already there. */
  function InsertDescending(x: Day, ds: seq<Day>): (r: seq<Day>)
    requires StrictlyDescending(ds)
    ensures StrictlyDescending(r)
    ensures forall d :: d in r <==> d == x || d in ds
  {
    if |ds| == 0 then [x]
    else if x > ds[0] then [x] + ds
    else if x == ds[0] then ds
    else
      var t := InsertDescending(x, ds[1..]);
      assert forall i :: 0 <= i < |t| ==> t[i] < ds[0] by {
        forall i | 0 <= i < |t|
          ensures t[i] < ds[0]
        {
          assert t[i] in t;
        }
      }
      [ds[0]] + t
  }

  /**
   * `sortedDescending()` of a set of dates: the one strictly descending list
   * holding exactly those dates.
   */
  function SortedDescending(ds: seq<Day>): (r: seq<Day>)
    ensures StrictlyDescending(r)
    ensures forall d :: d in r <==> d in ds
  {
    if |ds| == 0 then [] else InsertDescending(ds[0], SortedDescending(ds[1..]))
  }

  /** The creation days of a list of reservations, with repeats. */
  function DatesOf(rs: seq<Reservation>): (ds: seq<Day>)
    ensures |ds| == |rs| && forall i :: 0 <= i < |rs| ==> ds[i] == rs[i].createdAt
  {
    seq(|rs|, i requires 0 <= i < |rs| => rs[i].createdAt)
  }

  /** One heading and the reservations listed under it. */
  datatype DateGroup = DateGroup(date: Day, items: seq<Reservation>)

  /** The group headings: the distinct creation days, newest first. */
  function GroupDates(rs: seq<Reservation>): seq<Day>
  {
    SortedDescending(DatesOf(rs))
  }

  /**
   * The list as the screen shows it: one group per creation day, newest day
   * first; each group keeps the list's own order (`groupBy` appends in order).
   */
  function Grouped(rs: seq<Reservation>): seq<DateGroup>
  {
    var dates := GroupDates(rs);
    seq(|dates|, i requires 0 <= i < |dates| => DateGroup(dates[i], Filter(rs, CreatedOn(dates[i]))))
  }

  /**
   * The groups are headed by strictly descending days; none is empty; each
   * holds only reservations of the list made on its day; every reservation of
   * the list is in the group of its day.
   */
  lemma GroupedShape(rs: seq<Reservation>)
    ensures forall i, j :: 0 <= i < j < |Grouped(rs)| ==> Grouped(rs)[i].date > Grouped(rs)[j].date
    ensures forall i :: 0 <= i < |Grouped(rs)| ==> |Grouped(rs)[i].items| > 0
    ensures forall i, k :: 0 <= i < |Grouped(rs)| && 0 <= k < |Grouped(rs)[i].items| ==>
      Grouped(rs)[i].items[k] in rs && Grouped(rs)[i].items[k].createdAt == Grouped(rs)[i].date
    ensures forall k :: 0 <= k < |rs| ==>
      exists i :: 0 <= i < |Grouped(rs)| && Grouped(rs)[i].date == rs[k].createdAt && rs[k] in Grouped(rs)[i].items
  {
    GroupsNonEmpty(rs);
    forall k | 0 <= k < |rs|
      ensures exists i :: 0 <= i < |Grouped(rs)| && Grouped(rs)[i].date == rs[k].createdAt && rs[k] in Grouped(rs)[i].items
    {
      GroupOf(rs, k);
    }
  }

  /** No group is empty. */
  lemma GroupsNonEmpty(rs: seq<Reservation>)
    ensures forall i :: 0 <= i < |Grouped(rs)| ==> |Grouped(rs)[i].items| > 0
  {
    var g, dates := Grouped(rs), GroupDates(rs);
    forall i | 0 <= i < |g|
      ensures |g[i].items| > 0
    {
      assert dates[i] in dates;
      GroupOfListedDay(rs, dates[i]);
    }
  }

  /** A reservation of the list is in the group of its day. */
  lemma GroupOf(rs: seq<Reservation>, k: int)
    requires 0 <= k < |rs|
    ensures exists i :: 0 <= i < |Grouped(rs)| && Grouped(rs)[i].date == rs[k].createdAt && rs[k] in Grouped(rs)[i].items
  {
    var g, dates := Grouped(rs), GroupDates(rs);
    assert DatesOf(rs)[k] in DatesOf(rs);
    var i :| 0 <= i < |dates| && dates[i] == rs[k].createdAt;
    InOwnGroup(rs, k);
    assert g[i].items == Filter(rs, CreatedOn(rs[k].createdAt));
  }

  /** A day on which some reservation was made has a nonempty group. */
  lemma GroupOfListedDay(rs: seq<Reservation>, d: Day)
    requires d in DatesOf(rs)
    ensures |Filter(rs, CreatedOn(d))| > 0
  {
    var k :| 0 <= k < |rs| && DatesOf(rs)[k] == d;
    assert CreatedOn(d)(rs[k]);
    assert rs[k] in Filter(rs, CreatedOn(d));
  }

  /** Each reservation is in the group of the day it was made. */
  lemma InOwnGroup(rs: seq<Reservation>, k: int)
    requires 0 <= k < |rs|
    ensures rs[k] in Filter(rs, CreatedOn(rs[k].createdAt))
  {
    assert CreatedOn(rs[k].createdAt)(rs[k]);
  }

  /** The total number of reservations listed under the given days. */
  function ListedUnder(dates: seq<Day>, rs: seq<Reservation>): nat
  {
    if |dates| == 0 then 0 else |Filter(rs, CreatedOn(dates[0]))| + ListedUnder(dates[1..], rs)
  }

  /** The sizes of the groups, added up. */
  function GroupSizes(g: seq<DateGroup>): nat
  {
    if |g| == 0 then 0 else |g[0].items| + GroupSizes(g[1..])
  }

  /** Taking off the list's first reservation removes it from the one group of its day, if that day is listed. */
  lemma {:induction false} ListedUnderCons(dates: seq<Day>, r: Reservation, rs: seq<Reservation>)
    requires forall i, j :: 0 <= i < j < |dates| ==> dates[i] != dates[j]
    ensures ListedUnder(dates, [r] + rs) == ListedUnder(dates, rs) + (if r.createdAt in dates then 1 else 0)
  {
    if |dates| > 0 {
      assert ([r] + rs)[1..] == rs;
      ListedUnderCons(dates[1..], r, rs);
      assert r.createdAt in dates[1..] ==> r.createdAt != dates[0];
      assert r.createdAt in dates <==> r.createdAt == dates[0] || r.createdAt in dates[1..];
    }
  }

  /** Distinct days covering every reservation list each reservation exactly once. */
  lemma {:induction false} ListedUnderAll(dates: seq<Day>, rs: seq<Reservation>)
    requires forall i, j :: 0 <= i < j < |dates| ==> dates[i] != dates[j]
    requires forall k :: 0 <= k < |rs| ==> rs[k].createdAt in dates
    ensures ListedUnder(dates, rs) == |rs|
  {
    if |rs| == 0 {
      EmptyListedUnder(dates);
    } else {
      assert rs == [rs[0]] + rs[1..];
      ListedUnderCons(dates, rs[0], rs[1..]);
      ListedUnderAll(dates, rs[1..]);
    }
  }

  lemma {:induction false} EmptyListedUnder(dates: seq<Day>)
    ensures ListedUnder(dates, []) == 0
  {
    if |dates| > 0 {
      EmptyListedUnder(dates[1..]);
    }
  }

  lemma {:induction false} GroupSizesAre(dates: seq<Day>, rs: seq<Reservation>, g: seq<DateGroup>)
    requires |g| == |dates|
    requires forall i :: 0 <= i < |g| ==> g[i] == DateGroup(dates[i], Filter(rs, CreatedOn(dates[i])))
    ensures GroupSizes(g) == ListedUnder(dates, rs)
  {
    if |g| > 0 {
      GroupSizesAre(dates[1..], rs, g[1..]);
    }
  }

  /**
   * The groups partition the list: each reservation sits in the group of its
   * day, and the group sizes add up to the length of the list.
   */
  lemma GroupedPartition(rs: seq<Reservation>)
    ensures GroupSizes(Grouped(rs)) == |rs|
  {
    var dates := GroupDates(rs);
    forall k | 0 <= k < |rs|
      ensures rs[k].createdAt in dates
    {
      assert DatesOf(rs)[k] in DatesOf(rs);
    }
    ListedUnderAll(dates, rs);
    GroupSizesAre(dates, rs, Grouped(rs));
  }

  /** A group heading: `formatDate`. */
  datatype DateLabel = Today | Yesterday | Tomorrow | Formatted(date: Day)

  /**
   * `formatDate`: "Today", "Yesterday" or "Tomorrow" for the day offsets 0, -1
   * and +1 from today, otherwise the date written out.
   */
  function FormatDate(date: Day, today: Day): (l: DateLabel)
    ensures l == Today <==> date == today
    ensures l == Yesterday <==> date == today - 1
    ensures l == Tomorrow <==> date == today + 1
    ensures l.Formatted? <==> date < today - 1 || today + 1 < date
    ensures l.Formatted? ==> l.date == date
  {
    if date == today then Today
    else if date == today - 1 then Yesterday
    else if date == today + 1 then Tomorrow
    else Formatted(date)
  }
}
