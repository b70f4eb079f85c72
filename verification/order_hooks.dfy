/** The administrator's order hook of the backend variant (app/src/hooks/useOrders.ts):
    creating an order with its line items and, on auto-assign, one `accepted`
    progress row per farmer; deleting an order; confirming a member's
    submission; and reading the orders back as nested `FarmOrder` records.
    Each database write either succeeds or is refused as a whole; the flags
    saying which are parameters, and a refused write leaves its table as it was. */
module OrderHooks {
  import opened Collections
  import opened Schema
  import opened Domain

  /** What the order form hands over (`Omit<FarmOrder, 'id' | 'createdAt' | 'userProgress'>`);
      its `createdBy` is ignored by the hook, which stores the signed-in user instead. */
  datatype OrderDraft = OrderDraft(
    items: seq<OrderItem>, startDate: string, deadline: string, status: OrderStatus,
    autoAssign: bool, notes: Option<string>)

  /** Which of `createOrder`'s three inserts the database accepted. */
  datatype Outcome = Outcome(orderInserted: bool, itemsInserted: bool, progressInserted: bool)

  /** `notes || null`: an empty note is stored as no note. */
  function StoredNotes(notes: Option<string>): (r: Option<string>)
    ensures r.Some? <==> notes.Some? && notes.value != ""
    ensures r.Some? ==> r == notes
  {
    if notes.Some? && notes.value != "" then notes else None
  }

  /** The ids of the profiles whose role is `farmer`, in table order. */
  function FarmerIds(profiles: seq<ProfileRow>): (r: seq<Id>)
    ensures |r| <= |profiles|
  {
    Map(Filter(profiles, (p: ProfileRow) => p.role == Farmer), (p: ProfileRow) => p.id)
  }

  /** An id is listed exactly when a farmer's profile carries it. */
  lemma FarmerIdsExact(profiles: seq<ProfileRow>)
    ensures forall id :: id in FarmerIds(profiles) <==> exists i | 0 <= i < |profiles| :: profiles[i].role == Farmer && profiles[i].id == id
  {
    var farmers := Filter(profiles, (p: ProfileRow) => p.role == Farmer);
    assert forall i | 0 <= i < |profiles| && profiles[i].role == Farmer :: profiles[i] in farmers;
  }

  /** One `order_items` row per draft item, with consecutive ids from `firstId`. */
  function ItemRows(orderId: Id, firstId: Id, items: seq<OrderItem>): (r: seq<ItemRow>)
    ensures |r| == |items|
    ensures forall i | 0 <= i < |items| ::
              r[i] == ItemRow(firstId + i, orderId, items[i].blockId, items[i].amount, items[i].unit)
  {
    seq(|items|, i requires 0 <= i < |items| => ItemRow(firstId + i, orderId, items[i].blockId, items[i].amount, items[i].unit))
  }

  /** One `accepted` progress row per user, with consecutive ids from `firstId`. */
  function AcceptedRows(orderId: Id, firstId: Id, users: seq<Id>): (r: seq<ProgressRow>)
    ensures |r| == |users|
    ensures forall i | 0 <= i < |users| ::
              r[i] == ProgressRow(firstId + i, orderId, users[i], Accepted, None, None, None)
  {
    seq(|users|, i requires 0 <= i < |users| => ProgressRow(firstId + i, orderId, users[i], Accepted, None, None, None))
  }

  /** `createOrder`. Without a signed-in user, or when the order insert is refused, nothing
      is written. Otherwise the order row gets id `nextId`; the items follow when there are
      any and their insert is accepted; with auto-assign every farmer gets an `accepted`
      row when there is a farmer and that insert is accepted. A refused item or progress
      insert does not undo the order. */
  function CreateOrder(db: Db, user: Option<Id>, d: OrderDraft, now: Instant, w: Outcome): (r: Db)
    ensures user.None? || !w.orderInserted ==> r == db
    ensures user.Some? && w.orderInserted ==>
              && r.orders == db.orders + [OrderRow(db.nextId, d.startDate, d.deadline, d.status, d.autoAssign, user.value, now, StoredNotes(d.notes))]
              && r.items == db.items + ItemRows(db.nextId, db.nextId + 1, if w.itemsInserted then d.items else [])
              && r.progress == db.progress +
                   AcceptedRows(db.nextId, db.nextId + 1 + |d.items|,
                                if d.autoAssign && w.progressInserted then FarmerIds(db.profiles) else [])
              && r.nextId > db.nextId + |d.items| + |FarmerIds(db.profiles)|
    ensures r.profiles == db.profiles && r.completed == db.completed && r.absences == db.absences
  {
    if user.None? || !w.orderInserted then db
    else
      var id := db.nextId;
      var row := OrderRow(id, d.startDate, d.deadline, d.status, d.autoAssign, user.value, now, StoredNotes(d.notes));
      var farmers := FarmerIds(db.profiles);
      db.(orders := db.orders + [row],
          items := db.items + ItemRows(id, id + 1, Inserted(d.items, w.itemsInserted)),
          progress := db.progress + AcceptedRows(id, id + 1 + |d.items|, Inserted(farmers, d.autoAssign && w.progressInserted)),
          nextId := id + 1 + |d.items| + |farmers|)
  }

  /** What a guarded insert writes: the rows, when there are any (`length > 0`) and the
      insert is issued and accepted; nothing otherwise. Skipping the insert of no rows
      writes what issuing it would. */
  function Inserted<T>(rows: seq<T>, accepted: bool): (r: seq<T>)
    ensures r == if accepted then rows else []
  {
    if |rows| > 0 && accepted then rows else []
  }

  /** Creating an order hands out only fresh ids and refers only to them. */
  lemma CreateKeepsIds(db: Db, user: Option<Id>, d: OrderDraft, now: Instant, w: Outcome)
    requires IdsBelowNext(db)
    ensures IdsBelowNext(CreateOrder(db, user, d, now, w))
  {
    if user.Some? && w.orderInserted {
      var r := CreateOrder(db, user, d, now, w);
      var newItems := ItemRows(db.nextId, db.nextId + 1, if w.itemsInserted then d.items else []);
      var newProgress := AcceptedRows(db.nextId, db.nextId + 1 + |d.items|,
                                      if d.autoAssign && w.progressInserted then FarmerIds(db.profiles) else []);
      CreatedTables(db, user, d, now, w, newItems, newProgress);
      AppendedIdsBelow(db, r, r.orders[|db.orders|..], newItems, newProgress);
    }
  }

  /** Appending rows whose ids and references lie below the new counter keeps every id
      below it. */
  lemma AppendedIdsBelow(db: Db, r: Db, orders: seq<OrderRow>, items: seq<ItemRow>, progress: seq<ProgressRow>)
    requires IdsBelowNext(db) && db.nextId <= r.nextId
    requires r.orders == db.orders + orders && r.items == db.items + items && r.progress == db.progress + progress
    requires r.completed == db.completed && r.absences == db.absences
    requires forall i | 0 <= i < |orders| :: orders[i].id < r.nextId
    requires forall i | 0 <= i < |items| :: items[i].id < r.nextId && items[i].orderId < r.nextId
    requires forall i | 0 <= i < |progress| :: progress[i].id < r.nextId && progress[i].orderId < r.nextId
    ensures IdsBelowNext(r)
  {
  }

  // ----- reading back ---------------------------------------------------

  function ToOrderItem(row: ItemRow): OrderItem
  {
    OrderItem(row.blockId, row.amount, row.unit)
  }

  /** The nested `order_items` of one order, in table order. */
  function ItemsOf(items: seq<ItemRow>, orderId: Id): (r: seq<OrderItem>)
    ensures |r| <= |items|
  {
    Map(Filter(items, (it: ItemRow) => it.orderId == orderId), ToOrderItem)
  }

  /** The nested `completed_items` of one progress row. */
  function CompletedOf(completed: seq<CompletedRow>, progressId: Id): (r: seq<CompletedItem>)
    ensures |r| <= |completed|
  {
    Map(Filter(completed, (c: CompletedRow) => c.progressId == progressId), (c: CompletedRow) => CompletedItem(c.blockId, c.amount))
  }

  function ToProgress(completed: seq<CompletedRow>, p: ProgressRow): UserOrderProgress
  {
    UserOrderProgress(p.userId, p.status, CompletedOf(completed, p.id), p.submittedAt, p.confirmedAt, p.confirmedBy)
  }

  /** The nested `user_order_progress` of one order. */
  function ProgressOf(db: Db, orderId: Id): (r: seq<UserOrderProgress>)
    ensures |r| <= |db.progress|
  {
    Map(Filter(db.progress, (p: ProgressRow) => p.orderId == orderId), (p: ProgressRow) => ToProgress(db.completed, p))
  }

  /** One order row with its nested rows, as `fetchOrders` maps it. */
  function Assemble(db: Db, row: OrderRow): (o: FarmOrder)
    ensures o.id == row.id && o.createdAt == row.createdAt && o.status == row.status
  {
    FarmOrder(row.id, ItemsOf(db.items, row.id), row.startDate, row.deadline, row.status,
              row.autoAssign, row.createdBy, row.createdAt, row.notes, ProgressOf(db, row.id))
  }

  /** The nested selects are joins on the foreign keys: an order carries an item for every
      item row pointing at it and a progress entry for every progress row pointing at it,
      and nothing else. */
  lemma AssembleJoins(db: Db, row: OrderRow)
    ensures var o := Assemble(db, row);
            && (forall it | it in db.items && it.orderId == row.id :: ToOrderItem(it) in o.items)
            && (forall x | x in o.items :: exists it | it in db.items :: it.orderId == row.id && x == ToOrderItem(it))
            && (forall p | p in db.progress && p.orderId == row.id :: ToProgress(db.completed, p) in o.userProgress)
            && (forall u | u in o.userProgress :: exists p | p in db.progress :: p.orderId == row.id && u == ToProgress(db.completed, p))
  {
    var items := Filter(db.items, (it: ItemRow) => it.orderId == row.id);
    MapPermutation(items, items, ToOrderItem);
    var progress := Filter(db.progress, (p: ProgressRow) => p.orderId == row.id);
    MapPermutation(progress, progress, (p: ProgressRow) => ToProgress(db.completed, p));
  }

  /** A progress entry carries an entry for every completed row pointing at its row, and
      nothing else; its other fields are the row's. */
  lemma ToProgressJoins(completed: seq<CompletedRow>, p: ProgressRow)
    ensures var u := ToProgress(completed, p);
            && u.userId == p.userId && u.status == p.status && u.submittedAt == p.submittedAt
            && u.confirmedAt == p.confirmedAt && u.confirmedBy == p.confirmedBy
            && (forall c | c in completed && c.progressId == p.id :: CompletedItem(c.blockId, c.amount) in u.completedItems)
            && (forall x | x in u.completedItems :: exists c | c in completed :: c.progressId == p.id && x == CompletedItem(c.blockId, c.amount))
  {
    var mine := Filter(completed, (c: CompletedRow) => c.progressId == p.id);
    MapPermutation(mine, mine, (c: CompletedRow) => CompletedItem(c.blockId, c.amount));
  }

  /** `.order('created_at', { ascending: false })` as a comparator. */
  function NewestFirst(a: OrderRow, b: OrderRow): bool
  {
    a.createdAt >= b.createdAt
  }

  /** `fetchOrders`: every order row, newest first, with its items and progress nested. */
  function FetchOrders(db: Db): (r: seq<FarmOrder>)
    ensures |r| == |db.orders|
    ensures forall row | row in db.orders :: Assemble(db, row) in r
  {
    var sorted := SortBy(db.orders, NewestFirst);
    assert forall row | row in db.orders :: row in multiset(sorted);
    Map(sorted, (row: OrderRow) => Assemble(db, row))
  }

  /** Nothing but order rows is fetched: every entry is some row joined with its items
      and progress. */
  lemma FetchOrdersOnlyRows(db: Db)
    ensures forall x | x in FetchOrders(db) :: exists row | row in db.orders :: x == Assemble(db, row)
  {
    var sorted := SortBy(db.orders, NewestFirst);
    MapPermutation(db.orders, sorted, (row: OrderRow) => Assemble(db, row));
  }

  /** The fetched list is ordered by creation time, newest first. */
  lemma FetchOrdersNewestFirst(db: Db)
    ensures forall i, j | 0 <= i < j < |FetchOrders(db)| :: FetchOrders(db)[i].createdAt >= FetchOrders(db)[j].createdAt
  {
    SortBySorted(db.orders, NewestFirst);
  }

  /** What is read back for a freshly created order: exactly the draft's items when their
      insert was accepted, none otherwise. */
  lemma CreatedItemsReadBack(db: Db, user: Option<Id>, d: OrderDraft, now: Instant, w: Outcome)
    requires IdsBelowNext(db)
    requires user.Some? && w.orderInserted
    ensures ItemsOf(CreateOrder(db, user, d, now, w).items, db.nextId) == (if w.itemsInserted then d.items else [])
  {
    var written := if w.itemsInserted then d.items else [];
    var newItems := ItemRows(db.nextId, db.nextId + 1, written);
    assert CreateOrder(db, user, d, now, w).items == db.items + newItems;
    assert ItemsOf(db.items + newItems, db.nextId) == Map(newItems, ToOrderItem) by {
      assert forall i | 0 <= i < |db.items| :: db.items[i].orderId != db.nextId;
      AppendedItemsView(db.items, newItems, db.nextId);
    }
    ItemRowsReadBack(db.nextId, db.nextId + 1, written);
  }

  /** Rows appended for an order no older row belongs to are exactly its items. */
  lemma AppendedItemsView(before: seq<ItemRow>, added: seq<ItemRow>, orderId: Id)
    requires forall i | 0 <= i < |before| :: before[i].orderId != orderId
    requires forall i | 0 <= i < |added| :: added[i].orderId == orderId
    ensures ItemsOf(before + added, orderId) == Map(added, ToOrderItem)
  {
    var isItem := (it: ItemRow) => it.orderId == orderId;
    FilterConcat(before, added, isItem);
    FilterNone(before, isItem);
    FilterAll(added, isItem);
  }

  /** Item rows read back as the items they were written from. */
  lemma ItemRowsReadBack(orderId: Id, firstId: Id, items: seq<OrderItem>)
    ensures Map(ItemRows(orderId, firstId, items), ToOrderItem) == items
  {
    var m := Map(ItemRows(orderId, firstId, items), ToOrderItem);
    assert forall i | 0 <= i < |items| :: m[i] == items[i];
  }

  /** The progress read back for a freshly created order: one `accepted` row per farmer,
      with nothing completed yet, when auto-assign wrote them; none otherwise. */
  lemma CreatedProgressReadBack(db: Db, user: Option<Id>, d: OrderDraft, now: Instant, w: Outcome)
    requires IdsBelowNext(db)
    requires user.Some? && w.orderInserted
    ensures var views := ProgressOf(CreateOrder(db, user, d, now, w), db.nextId);
            && Map(views, (p: UserOrderProgress) => p.userId)
               == (if d.autoAssign && w.progressInserted then FarmerIds(db.profiles) else [])
            && forall k | 0 <= k < |views| :: views[k].status == Accepted && views[k].completedItems == []
  {
    var users := if d.autoAssign && w.progressInserted then FarmerIds(db.profiles) else [];
    CreatedAssignments(db, user, d, now, w, users);
    AppendedRowsView(db, CreateOrder(db, user, d, now, w), db.nextId, db.nextId + 1 + |d.items|, users);
  }

  /** A successful creation appends `accepted` rows for the assigned users under fresh ids. */
  lemma CreatedAssignments(db: Db, user: Option<Id>, d: OrderDraft, now: Instant, w: Outcome, users: seq<Id>)
    requires IdsBelowNext(db)
    requires user.Some? && w.orderInserted
    requires users == if d.autoAssign && w.progressInserted then FarmerIds(db.profiles) else []
    ensures forall i | 0 <= i < |db.progress| :: db.progress[i].orderId != db.nextId
    ensures forall i | 0 <= i < |db.completed| :: db.completed[i].progressId < db.nextId + 1 + |d.items|
    ensures CreateOrder(db, user, d, now, w).completed == db.completed
    ensures CreateOrder(db, user, d, now, w).progress == db.progress + AcceptedRows(db.nextId, db.nextId + 1 + |d.items|, users)
  {
    var newItems := ItemRows(db.nextId, db.nextId + 1, if w.itemsInserted then d.items else []);
    CreatedTables(db, user, d, now, w, newItems, AcceptedRows(db.nextId, db.nextId + 1 + |d.items|, users));
  }

  /** The progress view of an order whose rows were all just appended as `accepted` rows. */
  lemma AppendedRowsView(db: Db, r: Db, orderId: Id, firstId: Id, users: seq<Id>)
    requires forall i | 0 <= i < |db.progress| :: db.progress[i].orderId != orderId
    requires forall i | 0 <= i < |db.completed| :: db.completed[i].progressId < firstId
    requires r.completed == db.completed
    requires r.progress == db.progress + AcceptedRows(orderId, firstId, users)
    ensures var views := ProgressOf(r, orderId);
            && Map(views, (p: UserOrderProgress) => p.userId) == users
            && forall k | 0 <= k < |views| :: views[k].status == Accepted && views[k].completedItems == []
  {
    var rows := AcceptedRows(orderId, firstId, users);
    FilterSelectsAppended(db.progress, rows, (p: ProgressRow) => p.orderId == orderId);
    AcceptedRowsView(r.completed, orderId, firstId, users);
  }

  /** Fresh `accepted` rows read back as themselves, with nothing completed. */
  lemma AcceptedRowsView(completed: seq<CompletedRow>, orderId: Id, firstId: Id, users: seq<Id>)
    requires forall i | 0 <= i < |completed| :: completed[i].progressId < firstId
    ensures var views := Map(AcceptedRows(orderId, firstId, users), (p: ProgressRow) => ToProgress(completed, p));
            && Map(views, (p: UserOrderProgress) => p.userId) == users
            && forall k | 0 <= k < |views| :: views[k].status == Accepted && views[k].completedItems == []
  {
    var rows := AcceptedRows(orderId, firstId, users);
    forall k | 0 <= k < |rows|
      ensures CompletedOf(completed, rows[k].id) == []
    {
      FilterNone(completed, (c: CompletedRow) => c.progressId == rows[k].id);
    }
  }

  // ----- delete and confirm -----------------------------------------------

  /** Ids of the progress rows that belong to the order. */
  function ProgressIdsOf(progress: seq<ProgressRow>, orderId: Id): (r: set<Id>)
    ensures forall id :: id in r <==> exists i | 0 <= i < |progress| :: progress[i].orderId == orderId && progress[i].id == id
  {
    set i | 0 <= i < |progress| && progress[i].orderId == orderId :: progress[i].id
  }

  /** `deleteOrder`: removes the order row; the database's foreign keys take its items,
      its progress rows and their completed amounts with it. A refused delete changes nothing. */
  function DeleteOrder(db: Db, orderId: Id, ok: bool): (r: Db)
    ensures !ok ==> r == db
    ensures r.profiles == db.profiles && r.absences == db.absences && r.nextId == db.nextId
  {
    if !ok then db
    else
      var gone := ProgressIdsOf(db.progress, orderId);
      db.(orders := Filter(db.orders, (row: OrderRow) => row.id != orderId),
          items := Filter(db.items, (it: ItemRow) => it.orderId != orderId),
          progress := Filter(db.progress, (p: ProgressRow) => p.orderId != orderId),
          completed := Filter(db.completed, (c: CompletedRow) => c.progressId !in gone))
  }

  /** An accepted delete removes exactly the order, its items, its progress rows and the
      completed amounts of those rows. */
  lemma DeleteOrderRemoves(db: Db, orderId: Id)
    ensures var r := DeleteOrder(db, orderId, true);
            && (forall row :: row in r.orders <==> row in db.orders && row.id != orderId)
            && (forall it :: it in r.items <==> it in db.items && it.orderId != orderId)
            && (forall p :: p in r.progress <==> p in db.progress && p.orderId != orderId)
            && (forall c :: c in r.completed <==> c in db.completed && c.progressId !in ProgressIdsOf(db.progress, orderId))
  {
  }

  /** Deleting the order just created removes every row the creation wrote and nothing else. */
  lemma DeleteUndoesCreate(db: Db, user: Option<Id>, d: OrderDraft, now: Instant, w: Outcome)
    requires IdsBelowNext(db)
    requires user.Some? && w.orderInserted
    ensures var r := CreateOrder(db, user, d, now, w);
            DeleteOrder(r, db.nextId, true) == db.(nextId := r.nextId)
  {
    var r := CreateOrder(db, user, d, now, w);
    var newItems := ItemRows(db.nextId, db.nextId + 1, if w.itemsInserted then d.items else []);
    var newProgress := AcceptedRows(db.nextId, db.nextId + 1 + |d.items|,
                                    if d.autoAssign && w.progressInserted then FarmerIds(db.profiles) else []);
    CreatedIsAppended(db, user, d, now, w, newItems, newProgress);
    DeleteAppended(db, r, db.nextId, r.orders[|db.orders|..], newItems, newProgress);
  }

  /** A successful creation appends the rows of one order under a fresh id. */
  lemma CreatedIsAppended(db: Db, user: Option<Id>, d: OrderDraft, now: Instant, w: Outcome,
                          newItems: seq<ItemRow>, newProgress: seq<ProgressRow>)
    requires IdsBelowNext(db)
    requires user.Some? && w.orderInserted
    requires newItems == ItemRows(db.nextId, db.nextId + 1, if w.itemsInserted then d.items else [])
    requires newProgress == AcceptedRows(db.nextId, db.nextId + 1 + |d.items|,
                                         if d.autoAssign && w.progressInserted then FarmerIds(db.profiles) else [])
    ensures var r := CreateOrder(db, user, d, now, w);
            AppendedOrder(db, r, db.nextId, r.orders[|db.orders|..], newItems, newProgress)
  {
    CreatedTables(db, user, d, now, w, newItems, newProgress);
    CreatedProgressIds(db, user, d, now, w);
  }

  /** The tables after a successful creation, with the appended item and progress rows
      named by the caller. */
  lemma CreatedTables(db: Db, user: Option<Id>, d: OrderDraft, now: Instant, w: Outcome,
                      newItems: seq<ItemRow>, newProgress: seq<ProgressRow>)
    requires user.Some? && w.orderInserted
    requires newItems == ItemRows(db.nextId, db.nextId + 1, if w.itemsInserted then d.items else [])
    requires newProgress == AcceptedRows(db.nextId, db.nextId + 1 + |d.items|,
                                         if d.autoAssign && w.progressInserted then FarmerIds(db.profiles) else [])
    ensures var r := CreateOrder(db, user, d, now, w);
            && r.orders == db.orders + r.orders[|db.orders|..]
            && |r.orders| == |db.orders| + 1 && r.orders[|db.orders|].id == db.nextId
            && r.items == db.items + newItems && r.progress == db.progress + newProgress
            && r.completed == db.completed && r.profiles == db.profiles && r.absences == db.absences
  {
  }

  /** `r` is `db` with the rows `orders`, `items` and `progress` of the order `id` appended,
      where no existing row belongs to that order and no existing completed amount refers
      to one of its progress rows. */
  ghost predicate AppendedOrder(db: Db, r: Db, id: Id, orders: seq<OrderRow>, items: seq<ItemRow>, progress: seq<ProgressRow>)
  {
    && (forall i | 0 <= i < |db.orders| :: db.orders[i].id != id)
    && (forall i | 0 <= i < |db.items| :: db.items[i].orderId != id)
    && (forall i | 0 <= i < |db.progress| :: db.progress[i].orderId != id)
    && (forall i | 0 <= i < |orders| :: orders[i].id == id)
    && (forall i | 0 <= i < |items| :: items[i].orderId == id)
    && (forall i | 0 <= i < |progress| :: progress[i].orderId == id)
    && r.orders == db.orders + orders && r.items == db.items + items && r.progress == db.progress + progress
    && r.completed == db.completed && r.profiles == db.profiles && r.absences == db.absences
    && forall i | 0 <= i < |db.completed| :: db.completed[i].progressId !in ProgressIdsOf(r.progress, id)
  }

  /** Deleting an order whose rows were all appended after the existing ones, and to which
      no existing completed amount refers, restores the tables as they were. */
  lemma DeleteAppended(db: Db, r: Db, id: Id, orders: seq<OrderRow>, items: seq<ItemRow>, progress: seq<ProgressRow>)
    requires AppendedOrder(db, r, id, orders, items, progress)
    ensures DeleteOrder(r, id, true) == db.(nextId := r.nextId)
  {
    FilterDropsAppended(db.orders, orders, (row: OrderRow) => row.id != id);
    FilterDropsAppended(db.items, items, (it: ItemRow) => it.orderId != id);
    FilterDropsAppended(db.progress, progress, (p: ProgressRow) => p.orderId != id);
    FilterAll(db.completed, (c: CompletedRow) => c.progressId !in ProgressIdsOf(r.progress, id));
  }

  /** The progress rows of a freshly created order all carry fresh ids, so no existing
      completed amount refers to one of them. */
  lemma CreatedProgressIds(db: Db, user: Option<Id>, d: OrderDraft, now: Instant, w: Outcome)
    requires IdsBelowNext(db)
    requires user.Some? && w.orderInserted
    ensures var r := CreateOrder(db, user, d, now, w);
            forall i | 0 <= i < |db.completed| :: db.completed[i].progressId !in ProgressIdsOf(r.progress, db.nextId)
  {
  }

  /** `confirmOrder`: every progress row of the member on the order becomes `confirmed`,
      stamped with the time and the confirming user, whatever its status was. Without a
      signed-in user, or when the update is refused, nothing changes. */
  function ConfirmOrder(db: Db, admin: Option<Id>, orderId: Id, userId: Id, now: Instant, ok: bool): (r: Db)
    ensures admin.None? || !ok ==> r == db
    ensures |r.progress| == |db.progress|
    ensures admin.Some? && ok ==>
              forall i | 0 <= i < |db.progress| ::
                r.progress[i] == if IsRowOf(db.progress[i], orderId, userId)
                                 then db.progress[i].(status := Confirmed, confirmedAt := Some(now), confirmedBy := admin)
                                 else db.progress[i]
    ensures r == db.(progress := r.progress)
  {
    if admin.None? || !ok then db
    else
      db.(progress := UpdateWhere(db.progress, (p: ProgressRow) => IsRowOf(p, orderId, userId),
                                  (p: ProgressRow) => p.(status := Confirmed, confirmedAt := Some(now), confirmedBy := admin)))
  }

  /** Confirming touches no id. */
  lemma ConfirmKeepsIds(db: Db, admin: Option<Id>, orderId: Id, userId: Id, now: Instant, ok: bool)
    requires IdsBelowNext(db)
    ensures IdsBelowNext(ConfirmOrder(db, admin, orderId, userId, now, ok))
  {
  }

  /** Deleting only removes rows, so every remaining id stays below the counter. */
  lemma DeleteKeepsIds(db: Db, orderId: Id, ok: bool)
    requires IdsBelowNext(db)
    ensures IdsBelowNext(DeleteOrder(db, orderId, ok))
  {
    if ok {
      var r := DeleteOrder(db, orderId, ok);
      DeleteOrderRemoves(db, orderId);
      forall i | 0 <= i < |r.orders| ensures r.orders[i].id < r.nextId {
        assert r.orders[i] in db.orders;
      }
      forall i | 0 <= i < |r.items| ensures r.items[i].id < r.nextId && r.items[i].orderId < r.nextId {
        assert r.items[i] in db.items;
      }
      forall i | 0 <= i < |r.progress| ensures r.progress[i].id < r.nextId && r.progress[i].orderId < r.nextId {
        assert r.progress[i] in db.progress;
      }
      forall i | 0 <= i < |r.completed| ensures r.completed[i].id < r.nextId && r.completed[i].progressId < r.nextId {
        assert r.completed[i] in db.completed;
      }
    }
  }

  /** Confirming again at the same moment changes nothing more. */
  lemma ConfirmIdempotent(db: Db, admin: Option<Id>, orderId: Id, userId: Id, now: Instant, ok: bool)
    ensures var once := ConfirmOrder(db, admin, orderId, userId, now, ok);
            ConfirmOrder(once, admin, orderId, userId, now, ok) == once
  {
    var once := ConfirmOrder(db, admin, orderId, userId, now, ok);
    assert ConfirmOrder(once, admin, orderId, userId, now, ok).progress == once.progress;
  }
}
