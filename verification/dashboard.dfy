/** The start page of the backend variant (app/src/sections/Dashboard.tsx): the figures an
    admin sees, the member's three lanes, and the list of recent orders. */
module Dashboard {
  import opened Collections
  import opened Schema
  import opened Domain

  datatype Figures = Figures(
    totalOrders: nat, openOrders: nat, totalFarmers: nat, pendingAbsences: nat, pendingConfirmations: nat)

  /** The admin's figures, each counted over the fetched lists. */
  function AdminFigures(orders: seq<FarmOrder>, users: seq<User>, absences: seq<AbsenceRequest>): (r: Figures)
    ensures r.totalOrders == |orders| && r.openOrders <= r.totalOrders
    ensures r.openOrders == Count(orders, (o: FarmOrder) => o.status == Open)
    ensures r.totalFarmers == Count(users, (u: User) => u.role == Farmer)
    ensures r.pendingAbsences == Count(absences, (a: AbsenceRequest) => a.status == Pending)
    ensures r.pendingConfirmations == SubmittedCount(orders)
  {
    CountIsFilterLength(orders, (o: FarmOrder) => o.status == Open);
    CountIsFilterLength(users, (u: User) => u.role == Farmer);
    CountIsFilterLength(absences, (a: AbsenceRequest) => a.status == Pending);
    SubmittedRowsCount(orders);
    Figures(|orders|,
            |Filter(orders, (o: FarmOrder) => o.status == Open)|,
            |Filter(users, (u: User) => u.role == Farmer)|,
            |Filter(absences, (a: AbsenceRequest) => a.status == Pending)|,
            |SubmittedRows(orders)|)
  }

  /** The admin's figures replace the member's lane counts. */
  predicate AdminFiguresShown(role: Role)
  {
    role == Admin
  }

  datatype LaneCounts = LaneCounts(active: nat, submitted: nat, confirmed: nat)

  /** The member's counts: orders whose own progress row is active, submitted or confirmed. */
  function MemberCounts(orders: seq<FarmOrder>, userId: Id): (r: LaneCounts)
    ensures r.active + r.submitted + r.confirmed == |OrdersOf(orders, userId)|
    ensures r.active == |LaneOrders(orders, userId, ActiveLane)|
    ensures r.submitted == |LaneOrders(orders, userId, SubmittedLane)|
    ensures r.confirmed == |LaneOrders(orders, userId, ConfirmedLane)|
  {
    LanesPartition(orders, userId);
    LaneCounts(|LaneOrders(orders, userId, ActiveLane)|,
               |LaneOrders(orders, userId, SubmittedLane)|,
               |LaneOrders(orders, userId, ConfirmedLane)|)
  }

  /** The recent-orders card: the first five orders of the fetched list (the newest five,
      since the list comes newest first), or all of them when there are fewer. */
  function Recent(orders: seq<FarmOrder>): (r: seq<FarmOrder>)
    ensures |r| == if |orders| < 5 then |orders| else 5
    ensures r == orders[..|r|]
  {
    Take(orders, 5)
  }
}
