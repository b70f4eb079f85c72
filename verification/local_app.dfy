/** The local-only variant's root store (darknova-app/src/App.tsx): users,
    orders and absence requests held as lists, each handler a pure update from
    the old state to the new one. Ids and timestamps (`Date.now()`,
    `new Date().toISOString()`) are parameters; persistence is not modelled. */
module LocalApp {
  import opened Collections
  import opened Text
  import opened Schema
  import Domain

  datatype User = User(
    id: string, username: string, password: string, role: Role,
    createdAt: Instant, createdBy: Option<string>)

  /** What the user form hands over (`Omit<User, 'id' | 'createdAt'>`). */
  datatype NewUser = NewUser(username: string, password: string, role: Role, createdBy: Option<string>)

  /** An order of the local variant: one shared status and a list of assigned
      usernames instead of per-user progress. An absent `assignedTo` is the empty list. */
  datatype Order = Order(
    id: string, items: seq<Domain.OrderItem>, startDate: string, deadline: string,
    status: OrderStatus, autoAssign: bool, assignedTo: seq<string>, createdBy: string,
    createdAt: Instant, notes: Option<string>)

  /** What the order form hands over (`Omit<FarmOrder, 'id' | 'createdAt' | 'status'>`). */
  datatype OrderDraft = OrderDraft(
    items: seq<Domain.OrderItem>, startDate: string, deadline: string, autoAssign: bool,
    assignedTo: seq<string>, createdBy: string, notes: Option<string>)

  /** `Partial<FarmOrder>`: a field given here replaces the order's field. */
  datatype OrderPatch = OrderPatch(
    items: Option<seq<Domain.OrderItem>>, startDate: Option<string>, deadline: Option<string>,
    status: Option<OrderStatus>, autoAssign: Option<bool>, assignedTo: Option<seq<string>>,
    createdBy: Option<string>, notes: Option<Option<string>>)

  datatype Absence = Absence(
    id: string, username: string, startDate: string, endDate: string,
    reason: Option<string>, status: AbsenceStatus, requestedAt: Instant)

  datatype AbsenceDraft = AbsenceDraft(username: string, startDate: string, endDate: string, reason: Option<string>)

  /** The two outcomes `updateAbsence` accepts (`'approved' | 'rejected'`). */
  datatype Decision = Approve | Reject
  {
    function Status(): (s: AbsenceStatus)
      ensures s != Pending
    {
      if this == Approve then Approved else Rejected
    }
  }

  datatype AppState = AppState(current: Option<User>, users: seq<User>, orders: seq<Order>, absences: seq<Absence>)

  // ----- start-up --------------------------------------------------------

  /** `DEFAULT_USERS`: the seed administrator. */
  function DefaultUsers(now: Instant): (r: seq<User>)
    ensures |r| == 1 && r[0].role == Admin && r[0].username == "admin"
  {
    [User("1", "admin", "opSucht2024!", Admin, now, None)]
  }

  /** The state after the mount effect read the saved slices (`None`: the key is absent). */
  function Hydrate(
    savedUser: Option<User>, savedUsers: Option<seq<User>>,
    savedOrders: Option<seq<Order>>, savedAbsences: Option<seq<Absence>>, now: Instant): (st: AppState)
    ensures savedUsers.None? ==> |st.users| == 1 && Count(st.users, (u: User) => u.role == Admin) == 1
    ensures savedUsers.Some? ==> st.users == savedUsers.value
    ensures st.current == savedUser
    ensures st.orders == (if savedOrders.Some? then savedOrders.value else [])
    ensures st.absences == (if savedAbsences.Some? then savedAbsences.value else [])
  {
    AppState(
      savedUser,
      if savedUsers.Some? then savedUsers.value else DefaultUsers(now),
      if savedOrders.Some? then savedOrders.value else [],
      if savedAbsences.Some? then savedAbsences.value else [])
  }

  // ----- session ---------------------------------------------------------

  /** The login test: username equal ignoring case, password equal exactly. */
  predicate Credentials(u: User, username: string, password: string)
  {
    EqualsIgnoreCase(u.username, username) && u.password == password
  }

  /** `handleLogin`: the new state and whether the login succeeded. */
  function Login(st: AppState, username: string, password: string): (r: (AppState, bool))
    ensures r.1 <==> exists i | 0 <= i < |st.users| :: Credentials(st.users[i], username, password)
    ensures r.1 ==> exists i | 0 <= i < |st.users| ::
                      && r.0.current == Some(st.users[i])
                      && Credentials(st.users[i], username, password)
                      && forall j | 0 <= j < i :: !Credentials(st.users[j], username, password)
    ensures r.1 ==> r.0 == st.(current := r.0.current)
    ensures !r.1 ==> r.0 == st
  {
    match Find(st.users, (u: User) => Credentials(u, username, password))
    case None => (st, false)
    case Some(u) => (st.(current := Some(u)), true)
  }

  function Logout(st: AppState): (r: AppState)
    ensures r.current.None? && r.users == st.users && r.orders == st.orders && r.absences == st.absences
  {
    st.(current := None)
  }

  // ----- users -----------------------------------------------------------

  /** `addUser`: appends one user carrying the given id and creation time. */
  function AddUser(st: AppState, nu: NewUser, id: string, now: Instant): (r: AppState)
    ensures |r.users| == |st.users| + 1 && r.users[..|st.users|] == st.users
    ensures r.users[|st.users|] == User(id, nu.username, nu.password, nu.role, now, nu.createdBy)
    ensures r.current == st.current && r.orders == st.orders && r.absences == st.absences
  {
    st.(users := st.users + [User(id, nu.username, nu.password, nu.role, now, nu.createdBy)])
  }

  /** `deleteUser`: drops every user with the id and keeps the others in order. */
  function DeleteUser(st: AppState, id: string): (r: AppState)
    ensures forall u :: u in r.users <==> u in st.users && u.id != id
    ensures r.current == st.current && r.orders == st.orders && r.absences == st.absences
  {
    st.(users := Filter(st.users, (u: User) => u.id != id))
  }

  /** Deleting removes exactly the users carrying the id, no more and no fewer. */
  lemma DeleteUserCount(st: AppState, id: string)
    ensures |DeleteUser(st, id).users| + Count(st.users, (u: User) => u.id == id) == |st.users|
  {
    FilterDropsCount(st.users, (u: User) => u.id != id, (u: User) => u.id == id);
  }

  /** Deleting a user just added under an unused id restores the user list. */
  lemma DeleteUndoesAdd(st: AppState, nu: NewUser, id: string, now: Instant)
    requires forall i | 0 <= i < |st.users| :: st.users[i].id != id
    ensures DeleteUser(AddUser(st, nu, id, now), id) == st
  {
    var added := User(id, nu.username, nu.password, nu.role, now, nu.createdBy);
    var keep := (u: User) => u.id != id;
    FilterConcat(st.users, [added], keep);
    FilterAll(st.users, keep);
  }

  // ----- orders ----------------------------------------------------------

  /** Usernames of the `farmer`-role users, in list order. */
  function FarmerNames(users: seq<User>): (r: seq<string>)
    ensures forall n :: n in r <==> exists i | 0 <= i < |users| :: users[i].role == Farmer && users[i].username == n
  {
    var farmers := Filter(users, (u: User) => u.role == Farmer);
    var r := Map(farmers, (u: User) => u.username);
    assert forall i | 0 <= i < |users| && users[i].role == Farmer :: users[i] in farmers;
    assert forall n | n in r :: exists k | 0 <= k < |farmers| :: farmers[k].username == n;
    r
  }

  lemma {:induction false} FarmerNamesOfAppend(users: seq<User>, u: User)
    ensures FarmerNames(users + [u]) == FarmerNames(users) + (if u.role == Farmer then [u.username] else [])
  {
    var isFarmer := (x: User) => x.role == Farmer;
    FilterConcat(users, [u], isFarmer);
    MapConcat(Filter(users, isFarmer), Filter([u], isFarmer), (x: User) => x.username);
  }

  /** `addOrder`: appends the new order; with auto-assign it goes to every farmer at once. */
  function AddOrder(st: AppState, d: OrderDraft, id: string, now: Instant): (r: AppState)
    ensures |r.orders| == |st.orders| + 1 && r.orders[..|st.orders|] == st.orders
    ensures var o := r.orders[|st.orders|];
              && o.id == id && o.createdAt == now && o.items == d.items
              && o.startDate == d.startDate && o.deadline == d.deadline && o.autoAssign == d.autoAssign
              && o.createdBy == d.createdBy && o.notes == d.notes
              && o.status == (if d.autoAssign then InProgress else Open)
              && o.assignedTo == (if d.autoAssign then FarmerNames(st.users) else d.assignedTo)
    ensures r.current == st.current && r.users == st.users && r.absences == st.absences
  {
    var o := Order(id, d.items, d.startDate, d.deadline, Open, d.autoAssign, d.assignedTo, d.createdBy, now, d.notes);
    var placed := if d.autoAssign then o.(assignedTo := FarmerNames(st.users), status := InProgress) else o;
    st.(orders := st.orders + [placed])
  }

  /** `{ ...o, ...updates }` */
  function ApplyPatch(o: Order, p: OrderPatch): Order
  {
    Order(
      o.id,
      if p.items.Some? then p.items.value else o.items,
      if p.startDate.Some? then p.startDate.value else o.startDate,
      if p.deadline.Some? then p.deadline.value else o.deadline,
      if p.status.Some? then p.status.value else o.status,
      if p.autoAssign.Some? then p.autoAssign.value else o.autoAssign,
      if p.assignedTo.Some? then p.assignedTo.value else o.assignedTo,
      if p.createdBy.Some? then p.createdBy.value else o.createdBy,
      o.createdAt,
      if p.notes.Some? then p.notes.value else o.notes)
  }

  lemma ApplyPatchIdempotent(o: Order, p: OrderPatch)
    ensures ApplyPatch(ApplyPatch(o, p), p) == ApplyPatch(o, p)
  {
  }

  const NoChange := OrderPatch(None, None, None, None, None, None, None, None)

  /** `updateOrder`: patches the orders with the id; every other order stays as it was. */
  function UpdateOrder(st: AppState, id: string, p: OrderPatch): (r: AppState)
    ensures |r.orders| == |st.orders|
    ensures forall i | 0 <= i < |st.orders| && st.orders[i].id != id :: r.orders[i] == st.orders[i]
    ensures forall i | 0 <= i < |st.orders| && st.orders[i].id == id :: r.orders[i] == ApplyPatch(st.orders[i], p)
    ensures r.current == st.current && r.users == st.users && r.absences == st.absences
  {
    st.(orders := UpdateWhere(st.orders, (o: Order) => o.id == id, (o: Order) => ApplyPatch(o, p)))
  }

  /** `deleteOrder`: drops every order with the id and keeps the others in order. */
  function DeleteOrder(st: AppState, id: string): (r: AppState)
    ensures forall o :: o in r.orders <==> o in st.orders && o.id != id
    ensures r.current == st.current && r.users == st.users && r.absences == st.absences
  {
    st.(orders := Filter(st.orders, (o: Order) => o.id != id))
  }

  /** Deleting an order just added under an unused id restores the order list. */
  lemma DeleteUndoesAddOrder(st: AppState, d: OrderDraft, id: string, now: Instant)
    requires forall i | 0 <= i < |st.orders| :: st.orders[i].id != id
    ensures DeleteOrder(AddOrder(st, d, id, now), id) == st
  {
    var added := AddOrder(st, d, id, now).orders[|st.orders|];
    var keep := (o: Order) => o.id != id;
    assert AddOrder(st, d, id, now).orders == st.orders + [added];
    FilterConcat(st.orders, [added], keep);
    FilterAll(st.orders, keep);
  }

  /** The name list after the current user claims an order with list `assigned`. */
  function WithClaimant(names: seq<string>, name: string): (r: seq<string>)
    ensures |r| >= |names|
    ensures multiset(r)[name] == if name in names then multiset(names)[name] else 1
    ensures forall n | n != name :: multiset(r)[n] == multiset(names)[n]
    ensures r[..|names|] == names
  {
    if name in names then names else names + [name]
  }

  /** `claimOrder`: the current user joins the first order with the id, which moves to
      `in_progress` whatever its status was; without a user or such an order nothing changes. */
  function ClaimOrder(st: AppState, id: string): (r: AppState)
    ensures st.current.None? ==> r == st
    ensures (forall i | 0 <= i < |st.orders| :: st.orders[i].id != id) ==> r == st
    ensures r.current == st.current && r.users == st.users && r.absences == st.absences
    ensures |r.orders| == |st.orders|
    ensures forall i | 0 <= i < |st.orders| && st.orders[i].id != id :: r.orders[i] == st.orders[i]
    ensures st.current.Some? ==>
              forall i | 0 <= i < |st.orders| && st.orders[i].id == id ::
                && r.orders[i].status == InProgress
                && st.current.value.username in r.orders[i].assignedTo
  {
    if st.current.None? then st
    else match Find(st.orders, (o: Order) => o.id == id)
      case None => st
      case Some(o) =>
        var claimed := WithClaimant(o.assignedTo, st.current.value.username);
        UpdateOrder(st, id, NoChange.(assignedTo := Some(claimed), status := Some(InProgress)))
  }

  /** On the order claimed, the user's name is added once when missing and never duplicated. */
  lemma ClaimCountsOnce(st: AppState, id: string, k: nat)
    requires st.current.Some? && k < |st.orders| && st.orders[k].id == id
    requires forall j | 0 <= j < k :: st.orders[j].id != id
    ensures ClaimOrder(st, id).orders[k].assignedTo == WithClaimant(st.orders[k].assignedTo, st.current.value.username)
    ensures var name := st.current.value.username;
            var before := multiset(st.orders[k].assignedTo)[name];
            multiset(ClaimOrder(st, id).orders[k].assignedTo)[name] == if before == 0 then 1 else before
    ensures ClaimOrder(st, id).orders[k].assignedTo[..|st.orders[k].assignedTo|] == st.orders[k].assignedTo
  {
    var p := (o: Order) => o.id == id;
    var f := Find(st.orders, p);
    assert f == Some(st.orders[k]);
  }

  /** Patching the same orders twice with one patch is patching them once. */
  lemma UpdateOrderTwice(st: AppState, id: string, p: OrderPatch)
    ensures UpdateOrder(UpdateOrder(st, id, p), id, p) == UpdateOrder(st, id, p)
  {
    var once := UpdateOrder(st, id, p);
    var twice := UpdateOrder(once, id, p);
    forall i | 0 <= i < |st.orders|
      ensures twice.orders[i] == once.orders[i]
    {
      ApplyPatchIdempotent(st.orders[i], p);
    }
    assert twice.orders == once.orders;
  }

  /** Claiming twice is the same as claiming once. */
  lemma ClaimIdempotent(st: AppState, id: string)
    ensures ClaimOrder(ClaimOrder(st, id), id) == ClaimOrder(st, id)
  {
    var p := (o: Order) => o.id == id;
    if st.current.Some? && FirstIndex(st.orders, p).Some? {
      var name := st.current.value.username;
      var k := FirstIndex(st.orders, p).value;
      var patch := NoChange.(assignedTo := Some(WithClaimant(st.orders[k].assignedTo, name)), status := Some(InProgress));
      var once := UpdateOrder(st, id, patch);
      assert ClaimOrder(st, id) == once;
      assert forall i | 0 <= i < |st.orders| :: once.orders[i].id == st.orders[i].id;
      FirstIndexSamePattern(once.orders, st.orders, p);
      assert WithClaimant(once.orders[k].assignedTo, name) == once.orders[k].assignedTo;
      assert ClaimOrder(once, id) == UpdateOrder(once, id, patch);
      UpdateOrderTwice(st, id, patch);
    }
  }

  /** `completeOrder`: the orders with the id become `completed`, whatever their status. */
  function CompleteOrder(st: AppState, id: string): (r: AppState)
    ensures |r.orders| == |st.orders|
    ensures forall i | 0 <= i < |st.orders| ::
              r.orders[i] == if st.orders[i].id == id then st.orders[i].(status := Completed) else st.orders[i]
    ensures r.current == st.current && r.users == st.users && r.absences == st.absences
  {
    UpdateOrder(st, id, NoChange.(status := Some(Completed)))
  }

  // ----- absences --------------------------------------------------------

  /** `addAbsence`: appends a `pending` request with the given id and request time. */
  function AddAbsence(st: AppState, d: AbsenceDraft, id: string, now: Instant): (r: AppState)
    ensures |r.absences| == |st.absences| + 1 && r.absences[..|st.absences|] == st.absences
    ensures r.absences[|st.absences|] == Absence(id, d.username, d.startDate, d.endDate, d.reason, Pending, now)
    ensures r.current == st.current && r.users == st.users && r.orders == st.orders
  {
    st.(absences := st.absences + [Absence(id, d.username, d.startDate, d.endDate, d.reason, Pending, now)])
  }

  /** `updateAbsence`: the requests with the id take the decision, whatever their prior status. */
  function UpdateAbsence(st: AppState, id: string, d: Decision): (r: AppState)
    ensures |r.absences| == |st.absences|
    ensures forall i | 0 <= i < |st.absences| ::
              r.absences[i] == if st.absences[i].id == id then st.absences[i].(status := d.Status()) else st.absences[i]
    ensures r.current == st.current && r.users == st.users && r.orders == st.orders
  {
    st.(absences := UpdateWhere(st.absences, (a: Absence) => a.id == id, (a: Absence) => a.(status := d.Status())))
  }

  /** The last decision wins: an approval can be turned into a rejection and back. */
  lemma LastDecisionWins(st: AppState, id: string, first: Decision, second: Decision)
    ensures UpdateAbsence(UpdateAbsence(st, id, first), id, second) == UpdateAbsence(st, id, second)
  {
    var a, b := UpdateAbsence(UpdateAbsence(st, id, first), id, second), UpdateAbsence(st, id, second);
    assert a.absences == b.absences;
  }
}
