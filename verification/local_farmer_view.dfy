/** The member's order screen of the local-only variant
    (darknova-app/src/sections/FarmerView.tsx): the lists it shows, the overdue
    marker, the gate on the complete action, and the orders the lists are
    sorted in. Date strings are read through a `parse` function given as a
    parameter (`None` for an invalid date), and calendar days through a fixed
    offset of local time from UTC. */
module LocalFarmerView {
  import opened Collections
  import opened Schema
  import opened Arith
  import opened LocalApp
  import FarmerView

  /** Orders whose assigned names include the member's username. */
  function MyOrders(orders: seq<Order>, username: string): (r: seq<Order>)
    ensures forall o :: o in r <==> o in orders && username in o.assignedTo
  {
    Filter(orders, (o: Order) => username in o.assignedTo)
  }

  /** Every open order, assigned to anyone or no one. */
  function AvailableOrders(orders: seq<Order>): (r: seq<Order>)
    ensures forall o :: o in r <==> o in orders && o.status == Open
  {
    Filter(orders, (o: Order) => o.status == Open)
  }

  function CompletedOrders(orders: seq<Order>, username: string): (r: seq<Order>)
    ensures forall o :: o in r <==> o in orders && o.status == Completed && username in o.assignedTo
  {
    Filter(orders, (o: Order) => o.status == Completed && username in o.assignedTo)
  }

  /** The completed list only ever shows the member's own orders. */
  lemma CompletedAreMine(orders: seq<Order>, username: string)
    ensures forall o | o in CompletedOrders(orders, username) :: o in MyOrders(orders, username)
  {
  }

  /** Claiming an order puts it in the claimant's list and takes it out of the available one. */
  lemma ClaimMovesToMine(st: AppState, id: string, i: nat)
    requires st.current.Some? && i < |st.orders| && st.orders[i].id == id
    ensures var r := ClaimOrder(st, id);
            && r.orders[i] in MyOrders(r.orders, st.current.value.username)
            && r.orders[i] !in AvailableOrders(r.orders)
  {
  }

  // ----- overdue --------------------------------------------------------

  const DayMillis := 86_400_000

  /** The local calendar day an instant falls on, for a local offset of `offset` ms. */
  function LocalDay(t: Instant, offset: int): int
  {
    (t + offset) / DayMillis
  }

  /** `isOverdue`: the deadline lies in the past and not on today's local date
      (`setHours(0, 0, 0, 0)` of both differ). An invalid date is never overdue. */
  predicate IsOverdue(parse: string -> Option<Instant>, deadline: string, now: Instant, offset: int)
    ensures IsOverdue(parse, deadline, now, offset) ==> parse(deadline).Some?
  {
    match parse(deadline)
    case None => false
    case Some(d) => d < now && LocalDay(d, offset) != LocalDay(now, offset)
  }

  /** Overdue means exactly: the deadline's local day is before today's. */
  lemma OverdueIsEarlierDay(parse: string -> Option<Instant>, deadline: string, now: Instant, offset: int)
    ensures IsOverdue(parse, deadline, now, offset) <==>
              parse(deadline).Some? && LocalDay(parse(deadline).value, offset) < LocalDay(now, offset)
  {
    if parse(deadline).Some? {
      var d := parse(deadline).value;
      if d < now {
        DivMonotone(d + offset, now + offset, DayMillis);
      } else {
        DivMonotone(now + offset, d + offset, DayMillis);
      }
    }
  }

  /** Once overdue, an order stays overdue as time goes on. */
  lemma OverdueStays(parse: string -> Option<Instant>, deadline: string, now: Instant, later: Instant, offset: int)
    requires now <= later
    ensures IsOverdue(parse, deadline, now, offset) ==> IsOverdue(parse, deadline, later, offset)
  {
    if IsOverdue(parse, deadline, now, offset) {
      OverdueIsEarlierDay(parse, deadline, now, offset);
      DivMonotone(now + offset, later + offset, DayMillis);
      OverdueIsEarlierDay(parse, deadline, later, offset);
    }
  }

  /** The backend variant marks every past deadline; this one leaves out exactly the
      deadlines that fall earlier on today's local date. */
  lemma OverdueIsPastBeforeToday(parse: string -> Option<Instant>, deadline: string, now: Instant, offset: int)
    ensures IsOverdue(parse, deadline, now, offset) ==> FarmerView.PastDeadline(parse, deadline, now)
    ensures FarmerView.PastDeadline(parse, deadline, now) && !IsOverdue(parse, deadline, now, offset) <==>
              parse(deadline).Some? && parse(deadline).value < now
              && LocalDay(parse(deadline).value, offset) == LocalDay(now, offset)
  {
  }

  /** The marker on an order card: overdue, unless the order is completed. */
  function Overdue(parse: string -> Option<Instant>, o: Order, now: Instant, offset: int): (r: bool)
    ensures o.status == Completed ==> !r
    ensures r ==> IsOverdue(parse, o.deadline, now, offset)
    ensures o.status != Completed && IsOverdue(parse, o.deadline, now, offset) ==> r
  {
    IsOverdue(parse, o.deadline, now, offset) && o.status != Completed
  }

  /** The complete button: shown on cards with actions and only for `in_progress` orders. */
  function CanComplete(o: Order, showActions: bool): (r: bool)
    ensures r ==> o.status == InProgress
    ensures r <==> showActions && o.status == InProgress
  {
    showActions && o.status == InProgress
  }

  // ----- sorted lists ---------------------------------------------------

  /** The active list: the member's orders that are not completed, earliest deadline first.
      `time` reads a deadline as an instant. */
  function ActiveTasks(orders: seq<Order>, username: string, time: string -> Instant): (r: seq<Order>)
    ensures multiset(r) == multiset(Filter(MyOrders(orders, username), (o: Order) => o.status != Completed))
    ensures forall o | o in r :: o in orders && username in o.assignedTo && o.status != Completed
  {
    var active := Filter(MyOrders(orders, username), (o: Order) => o.status != Completed);
    var r := SortBy(active, (a: Order, b: Order) => time(a.deadline) <= time(b.deadline));
    assert forall o | o in r :: o in multiset(active);
    r
  }

  lemma ActiveTasksByDeadline(orders: seq<Order>, username: string, time: string -> Instant)
    ensures var r := ActiveTasks(orders, username, time);
            forall i, j | 0 <= i < j < |r| :: time(r[i].deadline) <= time(r[j].deadline)
  {
    var active := Filter(MyOrders(orders, username), (o: Order) => o.status != Completed);
    SortBySorted(active, (a: Order, b: Order) => time(a.deadline) <= time(b.deadline));
  }

  /** The available list, earliest deadline first. */
  function AvailableByDeadline(orders: seq<Order>, time: string -> Instant): (r: seq<Order>)
    ensures multiset(r) == multiset(AvailableOrders(orders))
  {
    SortBy(AvailableOrders(orders), (a: Order, b: Order) => time(a.deadline) <= time(b.deadline))
  }

  lemma AvailableByDeadlineSorted(orders: seq<Order>, time: string -> Instant)
    ensures var r := AvailableByDeadline(orders, time);
            forall i, j | 0 <= i < j < |r| :: time(r[i].deadline) <= time(r[j].deadline)
  {
    SortBySorted(AvailableOrders(orders), (a: Order, b: Order) => time(a.deadline) <= time(b.deadline));
  }

  /** The completed list, most recently created first. */
  function CompletedNewestFirst(orders: seq<Order>, username: string): (r: seq<Order>)
    ensures multiset(r) == multiset(CompletedOrders(orders, username))
  {
    SortBy(CompletedOrders(orders, username), (a: Order, b: Order) => a.createdAt >= b.createdAt)
  }

  lemma CompletedNewestFirstSorted(orders: seq<Order>, username: string)
    ensures var r := CompletedNewestFirst(orders, username);
            forall i, j | 0 <= i < j < |r| :: r[i].createdAt >= r[j].createdAt
  {
    SortBySorted(CompletedOrders(orders, username), (a: Order, b: Order) => a.createdAt >= b.createdAt);
  }
}
