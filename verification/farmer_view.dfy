/** The member's order screen of the backend variant (app/src/sections/FarmerView.tsx):
    the four tabs an order can be listed under, the completion percentage shown on
    an active order, the submit gate it drives, and the amount input. */
module FarmerView {
  import opened Collections
  import opened Text
  import opened Schema
  import opened Domain
  import opened Arith
  import OrderHooks
  import FarmerHooks

  /** Open orders the member has no progress row on. */
  function Available(orders: seq<FarmOrder>, userId: Id): (r: seq<FarmOrder>)
    ensures forall o :: o in r <==> o in orders && o.status == Open && !HasProgress(o, userId)
  {
    Filter(orders, (o: FarmOrder) => o.status == Open && !HasProgress(o, userId))
  }

  /** Orders whose (first) progress row of the member is `accepted` or `in_progress`. */
  function Mine(orders: seq<FarmOrder>, userId: Id): (r: seq<FarmOrder>)
    ensures forall o :: o in r <==> o in orders && HasProgress(o, userId) && FindProgress(o, userId).value.status in {Accepted, Working}
  {
    Filter(orders, (o: FarmOrder) => LaneOf(o, userId) == Some(ActiveLane))
  }

  function SubmittedList(orders: seq<FarmOrder>, userId: Id): (r: seq<FarmOrder>)
    ensures forall o :: o in r <==> o in orders && HasProgress(o, userId) && FindProgress(o, userId).value.status == Submitted
  {
    Filter(orders, (o: FarmOrder) => LaneOf(o, userId) == Some(SubmittedLane))
  }

  function ConfirmedList(orders: seq<FarmOrder>, userId: Id): (r: seq<FarmOrder>)
    ensures forall o :: o in r <==> o in orders && HasProgress(o, userId) && FindProgress(o, userId).value.status == Confirmed
  {
    Filter(orders, (o: FarmOrder) => LaneOf(o, userId) == Some(ConfirmedLane))
  }

  /** The four tabs never share an order, and an order the member has a row on is in
      exactly one of the last three. */
  lemma TabsPartition(orders: seq<FarmOrder>, userId: Id, o: FarmOrder)
    requires o in orders
    ensures o !in Available(orders, userId) || (o !in Mine(orders, userId) && o !in SubmittedList(orders, userId) && o !in ConfirmedList(orders, userId))
    ensures o !in Mine(orders, userId) || (o !in SubmittedList(orders, userId) && o !in ConfirmedList(orders, userId))
    ensures o !in SubmittedList(orders, userId) || o !in ConfirmedList(orders, userId)
    ensures HasProgress(o, userId) <==> o in Mine(orders, userId) || o in SubmittedList(orders, userId) || o in ConfirmedList(orders, userId)
  {
  }

  /** The three tabs with a progress row list exactly what the member's lanes hold, in
      the same order, as the dashboard and the profile page compute them. */
  lemma TabsAreLanes(orders: seq<FarmOrder>, userId: Id)
    ensures Mine(orders, userId) == LaneOrders(orders, userId, ActiveLane)
    ensures SubmittedList(orders, userId) == LaneOrders(orders, userId, SubmittedLane)
    ensures ConfirmedList(orders, userId) == LaneOrders(orders, userId, ConfirmedLane)
  {
    var mine := (o: FarmOrder) => HasProgress(o, userId);
    FilterFilter(orders, mine, (o: FarmOrder) => LaneOf(o, userId) == Some(ActiveLane));
    FilterFilter(orders, mine, (o: FarmOrder) => LaneOf(o, userId) == Some(SubmittedLane));
    FilterFilter(orders, mine, (o: FarmOrder) => LaneOf(o, userId) == Some(ConfirmedLane));
  }

  /** Together the tabs list no more orders than there are. */
  lemma {:induction false} TabsBounded(orders: seq<FarmOrder>, userId: Id)
    ensures |Available(orders, userId)| + |Mine(orders, userId)| + |SubmittedList(orders, userId)| + |ConfirmedList(orders, userId)| <= |orders|
  {
    if |orders| > 0 {
      TabsBounded(orders[1..], userId);
    }
  }

  /** `isOverdue`: the deadline, read through `parse` (`None` for an invalid date), lies
      before `now`. Unlike the local variant's test, a deadline earlier today counts. */
  predicate PastDeadline(parse: string -> Option<Instant>, deadline: string, now: Instant)
    ensures PastDeadline(parse, deadline, now) ==> parse(deadline).Some?
  {
    match parse(deadline)
    case None => false
    case Some(d) => d < now
  }

  /** Once past, a deadline stays past. */
  lemma PastDeadlineStays(parse: string -> Option<Instant>, deadline: string, now: Instant, later: Instant)
    requires now <= later
    ensures PastDeadline(parse, deadline, now) ==> PastDeadline(parse, deadline, later)
  {
  }

  // ----- completion percentage ------------------------------------------

  /** A JavaScript number as `Math.round` can return it: an integer, or one of the three
      non-finite values a division by zero produces. */
  datatype Percent = Finite(value: int) | PosInfinity | NegInfinity | NotANumber

  /** `Math.round(completed / total * 100)`, evaluated exactly: the integer nearest to
      `100 * completed / total`, halves rounded up. A zero total gives `Infinity`,
      `-Infinity` or `NaN` according to the sign of `completed`. */
  function RoundPercent(completed: int, total: int): (r: Percent)
    ensures total > 0 ==> r.Finite? && 2 * total * r.value <= 200 * completed + total < 2 * total * (r.value + 1)
    ensures total < 0 ==> r.Finite? && 2 * total * r.value >= 200 * completed + total > 2 * total * (r.value + 1)
    ensures total == 0 ==> r == if completed > 0 then PosInfinity else if completed < 0 then NegInfinity else NotANumber
  {
    if total > 0 then Finite((200 * completed + total) / (2 * total))
    else if total < 0 then Finite((-200 * completed - total) / (-2 * total))
    else if completed > 0 then PosInfinity
    else if completed < 0 then NegInfinity
    else NotANumber
  }

  /** `calculateProgress`: 0 without a progress row of the member; otherwise every completed
      amount of the row, whatever its block, against every ordered amount. */
  function CalculateProgress(o: FarmOrder, userId: Id): (r: Percent)
    ensures !HasProgress(o, userId) ==> r == Finite(0)
    ensures HasProgress(o, userId) ==>
              r == RoundPercent(CompletedTotal(FindProgress(o, userId).value.completedItems), OrderedTotal(o.items))
  {
    match FindProgress(o, userId)
    case None => Finite(0)
    case Some(p) => RoundPercent(CompletedTotal(p.completedItems), OrderedTotal(o.items))
  }

  /** JavaScript's `p < k` for a number `p` and an integer `k`: every comparison with
      `NaN` is false, `-Infinity` is below and `Infinity` above every integer. */
  predicate JsLess(p: Percent, k: int)
  {
    match p
    case Finite(v) => v < k
    case PosInfinity => false
    case NegInfinity => true
    case NotANumber => false
  }

  /** The submit button's `disabled={progress < 100}`, negated: a comparison with `NaN`
      is false, so `NaN` leaves the button enabled. */
  predicate SubmitEnabled(p: Percent)
    ensures SubmitEnabled(p) <==> !JsLess(p, 100)
  {
    match p
    case Finite(v) => v >= 100
    case PosInfinity => true
    case NegInfinity => false
    case NotANumber => true
  }

  /** With a positive ordered total, submitting opens at 99.5 %: rounding half up turns
      anything from there on into 100. */
  lemma SubmitThreshold(completed: int, total: int)
    requires total > 0
    ensures SubmitEnabled(RoundPercent(completed, total)) <==> 200 * completed >= 199 * total
  {
    var v := RoundPercent(completed, total).value;
    if v >= 100 {
      MulMonotone(2 * total, 100, v);
    } else {
      MulMonotone(2 * total, v + 1, 100);
    }
  }

  /** An order whose ordered amounts sum to zero (no items, say) can be submitted at once:
      the percentage is `NaN` or `Infinity`, and neither is below 100. */
  lemma ZeroTotalSubmittable(o: FarmOrder, userId: Id)
    requires OrderedTotal(o.items) == 0
    requires HasProgress(o, userId) && CompletedTotal(FindProgress(o, userId).value.completedItems) >= 0
    ensures SubmitEnabled(CalculateProgress(o, userId))
  {
  }

  /** The percentage depends only on which item and completed rows the order carries, not on
      the order the nested selects return them in. */
  lemma PercentIgnoresRowOrder(o: FarmOrder, o2: FarmOrder, userId: Id)
    requires multiset(o.items) == multiset(o2.items)
    requires HasProgress(o, userId) <==> HasProgress(o2, userId)
    requires HasProgress(o, userId) ==>
               multiset(FindProgress(o, userId).value.completedItems) == multiset(FindProgress(o2, userId).value.completedItems)
    ensures CalculateProgress(o, userId) == CalculateProgress(o2, userId)
  {
    if HasProgress(o, userId) {
      TotalsIgnoreOrder(o.items, o2.items, FindProgress(o, userId).value.completedItems, FindProgress(o2, userId).value.completedItems);
    }
  }

  /** Amounts recorded for blocks the order does not ask for still count, so the
      percentage can pass 100. */
  lemma ProgressCanExceedHundred()
    ensures var o := FarmOrder(1, [OrderItem("stone", 10, Dk)], "", "", Open, false, 0, 0, None,
                               [UserOrderProgress(7, Working, [CompletedItem("dirt", 20)], None, None, None)]);
            CalculateProgress(o, 7) == Finite(200)
  {
    var o := FarmOrder(1, [OrderItem("stone", 10, Dk)], "", "", Open, false, 0, 0, None,
                       [UserOrderProgress(7, Working, [CompletedItem("dirt", 20)], None, None, None)]);
    assert FindProgress(o, 7) == Some(o.userProgress[0]);
  }

  // ----- what the member typed, read back ---------------------------------

  /** After a recorded amount is stored, the refetched order shows exactly that amount for
      the block, provided the member has one progress row on the order and every block had
      at most one amount row before. */
  lemma RecordedAmountShown(db: Db, user: Id, orderId: Id, blockId: string, amount: int, row: OrderRow)
    requires IdsBelowNext(db) && FarmerHooks.UniqueBlocks(db)
    requires Count(db.progress, (p: ProgressRow) => IsRowOf(p, orderId, user)) == 1
    requires row in db.orders && row.id == orderId
    ensures var r := FarmerHooks.UpdateProgress(db, Some(user), orderId, blockId, amount, true);
            && OrderHooks.Assemble(r, row) in OrderHooks.FetchOrders(r)
            && CompletedAmount(FindProgress(OrderHooks.Assemble(r, row), user), blockId) == amount
  {
    var p := Single(db.progress, (p: ProgressRow) => IsRowOf(p, orderId, user)).value;
    FarmerHooks.UpdateProgressRecords(db, user, orderId, blockId, amount, p.id);
    var r := FarmerHooks.UpdateProgress(db, Some(user), orderId, blockId, amount, true);
    OwnProgressFound(r, user, row, p);
    ShownBlockAmount(r.completed, p, blockId, amount);
  }

  /** With one progress row of the member on the order, the assembled order's row of the
      member is that one. */
  lemma OwnProgressFound(db: Db, user: Id, row: OrderRow, p: ProgressRow)
    requires Count(db.progress, (q: ProgressRow) => IsRowOf(q, row.id, user)) == 1
    requires p in db.progress && IsRowOf(p, row.id, user)
    ensures FindProgress(OrderHooks.Assemble(db, row), user) == Some(OrderHooks.ToProgress(db.completed, p))
  {
    var isRow := (q: ProgressRow) => IsRowOf(q, row.id, user);
    var mine := Filter(db.progress, (q: ProgressRow) => q.orderId == row.id);
    var view := OrderHooks.ProgressOf(db, row.id);
    var k :| 0 <= k < |mine| && mine[k] == p;
    assert view[k].userId == user;
    var f := FindProgress(OrderHooks.Assemble(db, row), user);
    var i :| 0 <= i < |view| && view[i] == f.value;
    assert view[i] == OrderHooks.ToProgress(db.completed, mine[i]);
    assert mine[i] in db.progress && isRow(mine[i]);
    CountOneSame(db.progress, isRow, mine[i], p);
  }

  /** A progress row whose block has exactly one amount row, carrying `amount`, shows `amount`. */
  lemma ShownBlockAmount(completed: seq<CompletedRow>, p: ProgressRow, blockId: string, amount: int)
    requires Count(completed, (c: CompletedRow) => FarmerHooks.IsBlockOf(c, p.id, blockId)) == 1
    requires forall i | 0 <= i < |completed| && FarmerHooks.IsBlockOf(completed[i], p.id, blockId) :: completed[i].amount == amount
    ensures CompletedAmount(Some(OrderHooks.ToProgress(completed, p)), blockId) == amount
  {
    BlockListed(completed, p.id, blockId);
    BlockAmountsAgree(completed, p.id, blockId, amount);
    CompletedAmountOfRecorded(OrderHooks.ToProgress(completed, p), blockId, amount);
  }

  lemma BlockListed(completed: seq<CompletedRow>, progressId: Id, blockId: string)
    requires Count(completed, (c: CompletedRow) => FarmerHooks.IsBlockOf(c, progressId, blockId)) == 1
    ensures var items := OrderHooks.CompletedOf(completed, progressId);
            exists i | 0 <= i < |items| :: items[i].blockId == blockId
  {
    var rows := Filter(completed, (c: CompletedRow) => c.progressId == progressId);
    var items := OrderHooks.CompletedOf(completed, progressId);
    var j :| 0 <= j < |completed| && FarmerHooks.IsBlockOf(completed[j], progressId, blockId);
    assert completed[j] in rows;
    var k :| 0 <= k < |rows| && rows[k] == completed[j];
    assert items[k].blockId == blockId;
  }

  lemma BlockAmountsAgree(completed: seq<CompletedRow>, progressId: Id, blockId: string, amount: int)
    requires forall i | 0 <= i < |completed| && FarmerHooks.IsBlockOf(completed[i], progressId, blockId) :: completed[i].amount == amount
    ensures var items := OrderHooks.CompletedOf(completed, progressId);
            forall m | 0 <= m < |items| && items[m].blockId == blockId :: items[m].amount == amount
  {
    var rows := Filter(completed, (c: CompletedRow) => c.progressId == progressId);
    var items := OrderHooks.CompletedOf(completed, progressId);
    forall m | 0 <= m < |items| && items[m].blockId == blockId
      ensures items[m].amount == amount
    {
      assert rows[m] in completed;
      var n :| 0 <= n < |completed| && completed[n] == rows[m];
    }
  }

  // ----- the amount input ------------------------------------------------

  /** `parseInt(value) || 0`: the amount an edit of the progress input sends. */
  function ProgressInput(text: string): (amount: int)
    ensures ParseInt(text).None? ==> amount == 0
    ensures ParseInt(text).Some? ==> amount == ParseInt(text).value
  {
    OrFallback(ParseInt(text), 0)
  }

  /** Whatever amount the input shows, reading it back sends that amount. */
  lemma ProgressInputRoundTrip(n: int)
    ensures ProgressInput(Show(n)) == n
  {
    ParseShow(n);
  }
}
