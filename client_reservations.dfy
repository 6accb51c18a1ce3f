/** The client's reservation list: the Upcoming/Past/Declined tabs. */
module ClientReservations {
  import opened Entities
  import opened Seqs
  import RowTables
  import opened DateGroups

  /** The tabs, by `selectedTab`: 0, 1, anything else. */
  datatype ClientTab = UpcomingTab | PastTab | DeclinedTab

  function TabOf(selectedTab: int): (tab: ClientTab)
    ensures tab == UpcomingTab <==> selectedTab == 0
    ensures tab == PastTab <==> selectedTab == 1
  {
    if selectedTab == 0 then UpcomingTab else if selectedTab == 1 then PastTab else DeclinedTab
  }

  /** Whether a reservation is listed under a tab; dates compared are the day it was made. */
  predicate InTab(tab: ClientTab, r: Reservation, today: Day)
  {
    match tab
    case UpcomingTab => (r.status == Pending || r.status == Accepted) && r.createdAt >= today
    case PastTab => r.createdAt < today
    case DeclinedTab => r.status == Declined
  }

  function TabFilter(tab: ClientTab, today: Day): Reservation -> bool
  {
    (r: Reservation) => InTab(tab, r, today)
  }

  /** The reservations under a tab, in list order. */
  function TabReservations(rs: seq<Reservation>, selectedTab: int, today: Day): (out: seq<Reservation>)
    ensures forall i :: 0 <= i < |out| ==> out[i] in rs && InTab(TabOf(selectedTab), out[i], today)
    ensures forall i :: 0 <= i < |rs| && InTab(TabOf(selectedTab), rs[i], today) ==> rs[i] in out
    ensures forall x :: multiset(out)[x] == if InTab(TabOf(selectedTab), x, today) then multiset(rs)[x] else 0
    ensures RowTables.IdsAscending(rs, ResIdOf) ==> RowTables.IdsAscending(out, ResIdOf)
  {
    RowTables.FilterKeepsAscending(rs, TabFilter(TabOf(selectedTab), today), ResIdOf);
    Filter(rs, TabFilter(TabOf(selectedTab), today))
  }

  /** What the tab shows: its reservations grouped by creation day, newest first. */
  function TabView(rs: seq<Reservation>, selectedTab: int, today: Day): seq<DateGroup>
  {
    Grouped(TabReservations(rs, selectedTab, today))
  }

  /**
   * Upcoming shares nothing with Past or Declined; Past and Declined share
   * exactly the declined reservations made before today; every pending,
   * accepted or declined reservation is under some tab.
   */
  lemma TabsOverlap(r: Reservation, today: Day)
    ensures !(InTab(UpcomingTab, r, today) && InTab(PastTab, r, today))
    ensures !(InTab(UpcomingTab, r, today) && InTab(DeclinedTab, r, today))
    ensures InTab(PastTab, r, today) && InTab(DeclinedTab, r, today) <==> r.status == Declined && r.createdAt < today
    ensures r.status in {Pending, Accepted, Declined} ==>
      InTab(UpcomingTab, r, today) || InTab(PastTab, r, today) || InTab(DeclinedTab, r, today)
  {
  }

  /** Every reservation shown under the Upcoming tab is live and was made today or later. */
  lemma UpcomingShowsLive(rs: seq<Reservation>, today: Day, i: int, k: int)
    requires 0 <= i < |TabView(rs, 0, today)| && 0 <= k < |TabView(rs, 0, today)[i].items|
    ensures TabView(rs, 0, today)[i].items[k].status in {Pending, Accepted}
    ensures TabView(rs, 0, today)[i].items[k].createdAt >= today
    ensures TabView(rs, 0, today)[i].items[k].createdAt == TabView(rs, 0, today)[i].date
  {
    GroupedShape(TabReservations(rs, 0, today));
  }
}
