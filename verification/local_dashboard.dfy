/** The start page of the stand-alone local variant (darknova-farm-new/src/sections/Dashboard.tsx),
    over the same local records as darknova-app: the figures, the member's and the
    claimable orders, and the recent orders. */
module LocalDashboard {
  import opened Collections
  import opened Schema
  import LocalApp
  import LocalFarmerView

  datatype Stats = Stats(
    totalOrders: nat, openOrders: nat, inProgressOrders: nat, completedOrders: nat,
    totalFarmers: nat, pendingAbsences: nat)

  /** `stats`: each figure a count over the lists. */
  function ComputeStats(orders: seq<LocalApp.Order>, users: seq<LocalApp.User>, absences: seq<LocalApp.Absence>): (r: Stats)
    ensures r.totalOrders == |orders|
    ensures r.openOrders == Count(orders, (o: LocalApp.Order) => o.status == Open)
    ensures r.inProgressOrders == Count(orders, (o: LocalApp.Order) => o.status == InProgress)
    ensures r.completedOrders == Count(orders, (o: LocalApp.Order) => o.status == Completed)
    ensures r.totalFarmers == Count(users, (u: LocalApp.User) => u.role == Farmer)
    ensures r.pendingAbsences == Count(absences, (a: LocalApp.Absence) => a.status == Pending)
  {
    CountIsFilterLength(orders, (o: LocalApp.Order) => o.status == Open);
    CountIsFilterLength(orders, (o: LocalApp.Order) => o.status == InProgress);
    CountIsFilterLength(orders, (o: LocalApp.Order) => o.status == Completed);
    CountIsFilterLength(users, (u: LocalApp.User) => u.role == Farmer);
    CountIsFilterLength(absences, (a: LocalApp.Absence) => a.status == Pending);
    Stats(|orders|,
          |Filter(orders, (o: LocalApp.Order) => o.status == Open)|,
          |Filter(orders, (o: LocalApp.Order) => o.status == InProgress)|,
          |Filter(orders, (o: LocalApp.Order) => o.status == Completed)|,
          |Filter(users, (u: LocalApp.User) => u.role == Farmer)|,
          |Filter(absences, (a: LocalApp.Absence) => a.status == Pending)|)
  }

  /** The three status figures add up to the total: an order is stored with one of
      exactly three statuses ("overdue" is only ever a display state). */
  lemma StatusFiguresAddUp(orders: seq<LocalApp.Order>, users: seq<LocalApp.User>, absences: seq<LocalApp.Absence>)
    ensures var s := ComputeStats(orders, users, absences);
            s.openOrders + s.inProgressOrders + s.completedOrders == s.totalOrders
  {
    FilterPartitionLength(orders,
      (o: LocalApp.Order) => o.status == Open,
      (o: LocalApp.Order) => o.status == InProgress,
      (o: LocalApp.Order) => o.status == Completed);
  }

  /** The farmer figure is shown to admins only. */
  predicate FarmerFigureShown(role: Role)
  {
    role == Admin
  }

  /** Open orders the member is not assigned to yet. */
  function Claimable(orders: seq<LocalApp.Order>, username: string): (r: seq<LocalApp.Order>)
    ensures forall o :: o in r <==> o in orders && o.status == Open && username !in o.assignedTo
  {
    Filter(orders, (o: LocalApp.Order) => o.status == Open && username !in o.assignedTo)
  }

  /** The claimable list and the member's list never share an order. */
  lemma ClaimableNotMine(orders: seq<LocalApp.Order>, username: string)
    ensures forall o | o in Claimable(orders, username) :: o !in LocalFarmerView.MyOrders(orders, username)
  {
  }

  /** Claiming from the dashboard moves the order from the claimable list to the member's. */
  lemma ClaimLeavesClaimable(st: LocalApp.AppState, id: string, i: nat)
    requires st.current.Some? && i < |st.orders| && st.orders[i].id == id
    ensures var r := LocalApp.ClaimOrder(st, id);
            && r.orders[i] !in Claimable(r.orders, st.current.value.username)
            && r.orders[i] in LocalFarmerView.MyOrders(r.orders, st.current.value.username)
  {
    LocalFarmerView.ClaimMovesToMine(st, id, i);
  }

  /** The claimable and the member's sections appear for farmers and admins only. */
  predicate OrderSectionsShown(role: Role)
  {
    role == Farmer || role == Admin
  }

  /** Each of those sections lists at most five orders, the first ones of its list. */
  function FirstFive(orders: seq<LocalApp.Order>): (r: seq<LocalApp.Order>)
    ensures |r| <= 5 && |r| <= |orders|
    ensures r == orders[..|r|]
    ensures |orders| >= 5 ==> |r| == 5
  {
    Take(orders, 5)
  }

  /** `orders.slice(-5).reverse()`: the five most recently added orders, the last added first. */
  function RecentOrders(orders: seq<LocalApp.Order>): (r: seq<LocalApp.Order>)
    ensures |r| == if |orders| < 5 then |orders| else 5
    ensures forall i | 0 <= i < |r| :: r[i] == orders[|orders| - 1 - i]
  {
    Reverse(TakeLast(orders, 5))
  }

  /** An order just added heads the recent list. */
  lemma AddedOrderIsMostRecent(st: LocalApp.AppState, d: LocalApp.OrderDraft, id: string, now: Instant)
    ensures var r := LocalApp.AddOrder(st, d, id, now);
            RecentOrders(r.orders)[0] == r.orders[|st.orders|]
  {
  }
}
