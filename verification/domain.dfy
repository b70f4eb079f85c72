/** The records the backend variant's views work on, as the order and absence
    hooks assemble them from the tables, and the lookups and labels the views of
    both variants share. */
module Domain {
  import opened Collections
  import opened Schema

  datatype OrderItem = OrderItem(blockId: string, amount: int, unit: Unit)

  datatype CompletedItem = CompletedItem(blockId: string, amount: int)

  datatype UserOrderProgress = UserOrderProgress(
    userId: Id, status: ProgressStatus, completedItems: seq<CompletedItem>,
    submittedAt: Option<Instant>, confirmedAt: Option<Instant>, confirmedBy: Option<Id>)

  datatype FarmOrder = FarmOrder(
    id: Id, items: seq<OrderItem>, startDate: string, deadline: string,
    status: OrderStatus, autoAssign: bool, createdBy: Id, createdAt: Instant,
    notes: Option<string>, userProgress: seq<UserOrderProgress>)

  datatype User = User(id: Id, username: string, role: Role, createdAt: Instant, createdBy: Option<Id>)

  /** The user record the user list is built from, one per profile row, fields as stored. */
  function ProfileUser(p: ProfileRow): (u: User)
    ensures ProfileRow(u.id, u.username, u.role, u.createdAt, u.createdBy) == p
  {
    User(p.id, p.username, p.role, p.createdAt, p.createdBy)
  }

  datatype AbsenceRequest = AbsenceRequest(
    id: Id, userId: Id, username: string, startDate: string, endDate: string,
    reason: string, status: AbsenceStatus, requestedAt: Instant)

  /** The user has at least one progress row on the order (`userProgress.some(...)`). */
  predicate HasProgress(o: FarmOrder, userId: Id)
  {
    exists i | 0 <= i < |o.userProgress| :: o.userProgress[i].userId == userId
  }

  /** The user's first progress row on the order (`userProgress.find(...)`). */
  function FindProgress(o: FarmOrder, userId: Id): (r: Option<UserOrderProgress>)
    ensures r.Some? <==> HasProgress(o, userId)
    ensures r.Some? ==> r.value in o.userProgress && r.value.userId == userId
  {
    Find(o.userProgress, (p: UserOrderProgress) => p.userId == userId)
  }

  /** The three tabs an order with a progress row can appear under. */
  datatype Lane = ActiveLane | SubmittedLane | ConfirmedLane

  /** The tab the user's (first) progress row puts the order in; none without a row. */
  function LaneOf(o: FarmOrder, userId: Id): (r: Option<Lane>)
    ensures r.Some? <==> HasProgress(o, userId)
    ensures r == Some(ActiveLane) <==>
              HasProgress(o, userId) && FindProgress(o, userId).value.status in {Accepted, Working}
  {
    match FindProgress(o, userId)
    case None => None
    case Some(p) =>
      match p.status
      case Accepted => Some(ActiveLane)
      case Working => Some(ActiveLane)
      case Submitted => Some(SubmittedLane)
      case Confirmed => Some(ConfirmedLane)
  }

  /** Sum of the ordered amounts (`items.reduce((s, i) => s + i.amount, 0)`). */
  function OrderedTotal(items: seq<OrderItem>): int
  {
    Sum(items, ItemAmount)
  }

  function ItemAmount(i: OrderItem): int
  {
    i.amount
  }

  function EntryAmount(c: CompletedItem): int
  {
    c.amount
  }

  /** Sum of the completed amounts, whatever block they are for. */
  function CompletedTotal(done: seq<CompletedItem>): int
  {
    Sum(done, EntryAmount)
  }

  lemma CompletedTotalAppend(done: seq<CompletedItem>, c: CompletedItem)
    ensures CompletedTotal(done + [c]) == CompletedTotal(done) + c.amount
  {
    SumConcat(done, [c], EntryAmount);
  }

  /** An added item raises the ordered total by its amount. */
  lemma OrderedTotalAppend(items: seq<OrderItem>, x: OrderItem)
    ensures OrderedTotal(items + [x]) == OrderedTotal(items) + x.amount
  {
    SumConcat(items, [x], ItemAmount);
  }

  /** Both totals depend only on which rows there are, not on the order they are read in. */
  lemma TotalsIgnoreOrder(a: seq<OrderItem>, b: seq<OrderItem>, c: seq<CompletedItem>, d: seq<CompletedItem>)
    requires multiset(a) == multiset(b) && multiset(c) == multiset(d)
    ensures OrderedTotal(a) == OrderedTotal(b) && CompletedTotal(c) == CompletedTotal(d)
  {
    SumPermutation(a, b, ItemAmount);
    SumPermutation(c, d, EntryAmount);
  }

  /** The amount recorded for `blockId` by the first matching entry, or 0
      (`completedItems.find(ci => ci.blockId === blockId)?.amount || 0`). */
  function CompletedAmount(p: Option<UserOrderProgress>, blockId: string): (r: int)
    ensures p.None? ==> r == 0
    ensures p.Some? && (forall i | 0 <= i < |p.value.completedItems| :: p.value.completedItems[i].blockId != blockId) ==> r == 0
    ensures p.Some? && r != 0 ==>
              exists i | 0 <= i < |p.value.completedItems| ::
                && p.value.completedItems[i].blockId == blockId
                && p.value.completedItems[i].amount == r
                && forall j | 0 <= j < i :: p.value.completedItems[j].blockId != blockId
    ensures p.Some? ==>
              forall i | 0 <= i < |p.value.completedItems| && p.value.completedItems[i].blockId == blockId
                         && (forall j | 0 <= j < i :: p.value.completedItems[j].blockId != blockId) ::
                r == p.value.completedItems[i].amount
  {
    if p.None? then 0
    else
      FindFirst(p.value.completedItems, (ci: CompletedItem) => ci.blockId == blockId);
      match Find(p.value.completedItems, (ci: CompletedItem) => ci.blockId == blockId)
      case None => 0
      case Some(ci) => ci.amount
  }

  /** When the row records the block, and every entry for it carries the same amount,
      that amount is what is shown. */
  lemma CompletedAmountOfRecorded(p: UserOrderProgress, blockId: string, amount: int)
    requires exists i | 0 <= i < |p.completedItems| :: p.completedItems[i].blockId == blockId
    requires forall i | 0 <= i < |p.completedItems| && p.completedItems[i].blockId == blockId ::
               p.completedItems[i].amount == amount
    ensures CompletedAmount(Some(p), blockId) == amount
  {
  }

  /** An entry appended behind an existing entry for the block is never shown: the first
      entry keeps supplying the amount. Only a block without entries shows the new one. */
  lemma CompletedAmountAppend(p: UserOrderProgress, c: CompletedItem, blockId: string)
    ensures CompletedAmount(Some(p.(completedItems := p.completedItems + [c])), blockId) ==
              if exists i | 0 <= i < |p.completedItems| :: p.completedItems[i].blockId == blockId
              then CompletedAmount(Some(p), blockId)
              else if c.blockId == blockId then c.amount else 0
  {
    var s, t := p.completedItems, p.completedItems + [c];
    var f := FirstIndex(s, (ci: CompletedItem) => ci.blockId == blockId);
    if f.Some? {
      assert forall j | 0 <= j < f.value :: t[j] == s[j];
      assert CompletedAmount(Some(p.(completedItems := t)), blockId) == t[f.value].amount;
    } else if c.blockId == blockId {
      assert forall j | 0 <= j < |s| :: t[j] == s[j];
      assert CompletedAmount(Some(p.(completedItems := t)), blockId) == t[|s|].amount;
    } else {
      assert forall j | 0 <= j < |t| :: t[j].blockId != blockId by {
        assert forall j | 0 <= j < |s| :: t[j] == s[j];
      }
    }
  }

  // ----- one member's orders ---------------------------------------------

  /** The orders the member has a progress row on (`userProgress.some(...)`). */
  function OrdersOf(orders: seq<FarmOrder>, userId: Id): (r: seq<FarmOrder>)
    ensures forall o :: o in r <==> o in orders && HasProgress(o, userId)
  {
    Filter(orders, (o: FarmOrder) => HasProgress(o, userId))
  }

  /** The member's orders whose (first) progress row puts them in `lane`. */
  function LaneOrders(orders: seq<FarmOrder>, userId: Id, lane: Lane): (r: seq<FarmOrder>)
    ensures forall o :: o in r <==> o in orders && LaneOf(o, userId) == Some(lane)
  {
    Filter(OrdersOf(orders, userId), (o: FarmOrder) => LaneOf(o, userId) == Some(lane))
  }

  /** The three lanes are disjoint, lie within the member's orders, and share them out:
      each of the member's orders is in exactly one. */
  lemma LanesPartition(orders: seq<FarmOrder>, userId: Id)
    ensures forall o, l | o in LaneOrders(orders, userId, l) :: o in OrdersOf(orders, userId)
    ensures forall o, l, m | o in LaneOrders(orders, userId, l) && o in LaneOrders(orders, userId, m) :: l == m
    ensures forall o | o in OrdersOf(orders, userId) ::
              o in LaneOrders(orders, userId, ActiveLane) || o in LaneOrders(orders, userId, SubmittedLane) || o in LaneOrders(orders, userId, ConfirmedLane)
    ensures |LaneOrders(orders, userId, ActiveLane)| + |LaneOrders(orders, userId, SubmittedLane)| + |LaneOrders(orders, userId, ConfirmedLane)|
            == |OrdersOf(orders, userId)|
  {
    FilterPartitionLength(OrdersOf(orders, userId),
      (o: FarmOrder) => LaneOf(o, userId) == Some(ActiveLane),
      (o: FarmOrder) => LaneOf(o, userId) == Some(SubmittedLane),
      (o: FarmOrder) => LaneOf(o, userId) == Some(ConfirmedLane));
  }

  // ----- submitted rows --------------------------------------------------

  /** Every progress row awaiting confirmation, order by order
      (`orders.flatMap(o => o.userProgress.filter(p => p.status === 'submitted'))`). */
  function SubmittedRows(orders: seq<FarmOrder>): (r: seq<UserOrderProgress>)
    ensures forall p | p in r :: p.status == Submitted
    ensures forall o, p | o in orders && p in o.userProgress && p.status == Submitted :: p in r
  {
    if |orders| == 0 then []
    else Filter(orders[0].userProgress, (p: UserOrderProgress) => p.status == Submitted) + SubmittedRows(orders[1..])
  }

  /** The number of submitted rows, counted order by order. */
  function SubmittedCount(orders: seq<FarmOrder>): nat
  {
    if |orders| == 0 then 0
    else Count(orders[0].userProgress, (p: UserOrderProgress) => p.status == Submitted) + SubmittedCount(orders[1..])
  }

  lemma {:induction false} SubmittedRowsCount(orders: seq<FarmOrder>)
    ensures |SubmittedRows(orders)| == SubmittedCount(orders)
  {
    if |orders| > 0 {
      CountIsFilterLength(orders[0].userProgress, (p: UserOrderProgress) => p.status == Submitted);
      SubmittedRowsCount(orders[1..]);
    }
  }

  // ----- names -----------------------------------------------------------

  /** The placeholder shown for a user whose profile is missing or has no name. */
  const UnknownName := "Unbekannt"

  /** `users.find(u => u.id === id)?.username || 'Unbekannt'`. */
  function UserName(users: seq<User>, id: Id): (name: string)
    ensures name != ""
    ensures (forall i | 0 <= i < |users| :: users[i].id != id) ==> name == UnknownName
    ensures name != UnknownName ==> exists i | 0 <= i < |users| :: users[i].id == id && users[i].username == name
    ensures forall i | 0 <= i < |users| && users[i].id == id && (forall j | 0 <= j < i :: users[j].id != id) ::
              name == if users[i].username == "" then UnknownName else users[i].username
  {
    FindFirst(users, (u: User) => u.id == id);
    match Find(users, (u: User) => u.id == id)
    case None => UnknownName
    case Some(u) => if u.username == "" then UnknownName else u.username
  }

  // ----- labels ----------------------------------------------------------

  /** An entry of the block catalog the order forms pick from. */
  datatype Block = Block(id: string, name: string)

  /** `getBlockName`: the name of the first catalog entry with the id; the id itself when
      there is no such entry or its name is empty. */
  function BlockName(catalog: seq<Block>, blockId: string): (r: string)
    ensures (forall i | 0 <= i < |catalog| :: catalog[i].id != blockId) ==> r == blockId
    ensures r != blockId ==> exists i | 0 <= i < |catalog| :: catalog[i].id == blockId && catalog[i].name == r
  {
    match Find(catalog, (b: Block) => b.id == blockId)
    case None => blockId
    case Some(b) => if b.name == "" then blockId else b.name
  }

  /** A catalog entry listed first under its id, with a name, gives that name. */
  lemma BlockNameKnown(catalog: seq<Block>, i: nat)
    requires i < |catalog| && catalog[i].name != ""
    requires forall j | 0 <= j < i :: catalog[j].id != catalog[i].id
    ensures BlockName(catalog, catalog[i].id) == catalog[i].name
  {
    var f := FirstIndex(catalog, (b: Block) => b.id == catalog[i].id);
    assert f == Some(i) by {
      if f.Some? && f.value != i {
        assert f.value < i;
      }
    }
  }

  /** `getStatusText` of the order screens: the German label of an order status name, and
      any other text unchanged. */
  function OrderStatusText(status: string): (r: string)
    ensures status == Open.Name() ==> r == "Offen"
    ensures status == InProgress.Name() ==> r == "In Bearbeitung"
    ensures status == Completed.Name() ==> r == "Abgeschlossen"
    ensures status == "overdue" ==> r == "\U{DC}berf\U{E4}llig"
    ensures status !in {Open.Name(), InProgress.Name(), Completed.Name(), "overdue"} ==> r == status
  {
    if status == "open" then "Offen"
    else if status == "in_progress" then "In Bearbeitung"
    else if status == "completed" then "Abgeschlossen"
    else if status == "overdue" then "\U{DC}berf\U{E4}llig"
    else status
  }

  /** Different order statuses never share a label. */
  lemma OrderStatusTextDistinct(a: OrderStatus, b: OrderStatus)
    ensures OrderStatusText(a.Name()) == OrderStatusText(b.Name()) <==> a == b
  {
  }

  /** `getStatusText` of the absence screen: the German label of an absence status name,
      and any other text unchanged. */
  function AbsenceStatusText(status: string): (r: string)
    ensures status == Pending.Name() ==> r == "Ausstehend"
    ensures status == Approved.Name() ==> r == "Genehmigt"
    ensures status == Rejected.Name() ==> r == "Abgelehnt"
    ensures status !in {Pending.Name(), Approved.Name(), Rejected.Name()} ==> r == status
  {
    if status == "pending" then "Ausstehend"
    else if status == "approved" then "Genehmigt"
    else if status == "rejected" then "Abgelehnt"
    else status
  }

  lemma AbsenceStatusTextDistinct(a: AbsenceStatus, b: AbsenceStatus)
    ensures AbsenceStatusText(a.Name()) == AbsenceStatusText(b.Name()) <==> a == b
  {
  }
}
