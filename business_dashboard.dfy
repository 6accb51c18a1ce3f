/**
 * The business owner's main screen: the Pending/Accepted/Past tabs, today's
 * counts, the accept and decline buttons, and which business is shown.
 */
module BusinessDashboard {
  import opened Wrappers
  import opened Entities
  import opened Seqs
  import RowTables
  import ReservationDao
  import opened DateGroups

  /** The tabs, by `selectedTab`: 0, 1, anything else. */
  datatype BusinessTab = PendingTab | AcceptedTab | PastTab

  function TabOf(selectedTab: int): (tab: BusinessTab)
    ensures tab == PendingTab <==> selectedTab == 0
    ensures tab == AcceptedTab <==> selectedTab == 1
  {
    if selectedTab == 0 then PendingTab else if selectedTab == 1 then AcceptedTab else PastTab
  }

  /** Whether a reservation is listed under a tab; dates compared are the day it was made. */
  predicate InTab(tab: BusinessTab, r: Reservation, today: Day)
  {
    match tab
    case PendingTab => r.status == Pending && r.createdAt >= today
    case AcceptedTab => r.status == Accepted && r.createdAt >= today
    case PastTab => r.createdAt < today
  }

  function TabFilter(tab: BusinessTab, today: Day): Reservation -> bool
  {
    (r: Reservation) => InTab(tab, r, today)
  }

  /** The reservations under a tab, in list order. */
  function TabReservations(rs: seq<Reservation>, selectedTab: int, today: Day): (out: seq<Reservation>)
    ensures forall i :: 0 <= i < |out| ==> out[i] in rs && InTab(TabOf(selectedTab), out[i], today)
    ensures forall i :: 0 <= i < |rs| && InTab(TabOf(selectedTab), rs[i], today) ==> rs[i] in out
    ensures forall x :: multiset(out)[x] == if InTab(TabOf(selectedTab), x, today) then multiset(rs)[x] else 0
    ensures RowTables.IdsAscending(rs, ResIdOf) ==> RowTables.IdsAscending(out, ResIdOf)
  {
    RowTables.FilterKeepsAscending(rs, TabFilter(TabOf(selectedTab), today), ResIdOf);
    Filter(rs, TabFilter(TabOf(selectedTab), today))
  }

  /** What the tab shows: its reservations grouped by creation day, newest first. */
  function TabView(rs: seq<Reservation>, selectedTab: int, today: Day): seq<DateGroup>
  {
    Grouped(TabReservations(rs, selectedTab, today))
  }

  /**
   * The tabs are pairwise disjoint; Past holds whatever was made before
   * today, and a reservation declined and made today or later is in no tab.
   */
  lemma TabsPartition(r: Reservation, today: Day)
    ensures !(InTab(PendingTab, r, today) && InTab(AcceptedTab, r, today))
    ensures !(InTab(PendingTab, r, today) && InTab(PastTab, r, today))
    ensures !(InTab(AcceptedTab, r, today) && InTab(PastTab, r, today))
    ensures InTab(PastTab, r, today) <==> r.createdAt < today
    ensures r.status == Declined && r.createdAt >= today ==>
      !InTab(PendingTab, r, today) && !InTab(AcceptedTab, r, today) && !InTab(PastTab, r, today)
  {
  }

  /**
   * Accept and decline buttons are shown on the Pending tab only, so every
   * reservation they act on is pending and was made today or later.
   */
  function ShowActions(selectedTab: int): (b: bool)
    ensures b <==> TabOf(selectedTab) == PendingTab
  {
    selectedTab == 0
  }

  lemma ActionsOnlyOnPending(rs: seq<Reservation>, selectedTab: int, today: Day, i: int, k: int)
    requires ShowActions(selectedTab)
    requires 0 <= i < |TabView(rs, selectedTab, today)| && 0 <= k < |TabView(rs, selectedTab, today)[i].items|
    ensures TabView(rs, selectedTab, today)[i].items[k].status == Pending
    ensures TabView(rs, selectedTab, today)[i].items[k].createdAt >= today
    ensures TabView(rs, selectedTab, today)[i].items[k] in rs
  {
    var shown := TabReservations(rs, selectedTab, today);
    GroupedShape(shown);
    var r := TabView(rs, selectedTab, today)[i].items[k];
    assert r in shown;
  }

  /** The reservation as the accept or decline button writes it back. */
  function Respond(r: Reservation, accept: bool): (out: Reservation)
    ensures out.status == if accept then Accepted else Declined
    ensures out.(status := r.status) == r
  {
    r.(status := if accept then Accepted else Declined)
  }

  /**
   * Accept or decline: `updateReservation(reservation.copy(status = ...))`.
   * The row with the reservation's key gets the new status and nothing else
   * changes in the table.
   */
  method RespondToReservation(table: ReservationDao.ReservationTable, r: Reservation, accept: bool)
    requires table.Valid()
    modifies table
    ensures table.Valid() && table.nextId == old(table.nextId)
    ensures |table.rows| == |old(table.rows)|
    ensures forall i :: 0 <= i < |table.rows| ==>
      table.rows[i] == if old(table.rows)[i].resId == r.resId then Respond(r, accept) else old(table.rows)[i]
  {
    table.UpdateReservation(Respond(r, accept));
  }

  /** `TodayStatsCard`: the reservations made today, counted per status. */
  datatype TodayStats = TodayStats(accepted: nat, pending: nat, declined: nat)

  function MadeTodayWith(today: Day, status: string): Reservation -> bool
  {
    (r: Reservation) => r.createdAt == today && r.status == status
  }

  function Stats(rs: seq<Reservation>, today: Day): TodayStats
  {
    TodayStats(
      Count(rs, MadeTodayWith(today, Accepted)),
      Count(rs, MadeTodayWith(today, Pending)),
      Count(rs, MadeTodayWith(today, Declined)))
  }

  /** The three counts never add up to more than the reservations made today. */
  lemma {:induction false} StatsBounded(rs: seq<Reservation>, today: Day)
    ensures Stats(rs, today).accepted + Stats(rs, today).pending + Stats(rs, today).declined <= Count(rs, CreatedOn(today))
  {
    if |rs| > 0 {
      StatsBounded(rs[1..], today);
    }
  }

  /**
   * The business shown: when none is selected yet and the owner has some,
   * the first one; otherwise the selection stays.
   */
  function SelectBusiness(selected: Option<Business>, businesses: seq<Business>): (s: Option<Business>)
    ensures selected.Some? ==> s == selected
    ensures selected.None? && |businesses| > 0 ==> s == Some(businesses[0])
    ensures s.None? <==> selected.None? && |businesses| == 0
  {
    if selected.None? && |businesses| > 0 then Some(businesses[0]) else selected
  }
}
