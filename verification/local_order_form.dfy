/** The admin's order screen of the local-only variant
    (darknova-app/src/sections/FarmOrdersManager.tsx). Its form has the same fields and
    item editing as the backend variant's, so it reuses that form; it differs in the
    remove guard, in dropping invalid items instead of refusing to submit, and in the
    order it lists orders in. */
module LocalOrderForm {
  import opened Collections
  import opened Schema
  import opened Domain
  import opened OrderManager
  import LocalApp

  /** `handleRemoveItem`: as the backend variant's, but the handler itself keeps the last item. */
  function GuardedRemove(f: Form, index: int): (r: Form)
    ensures |f.items| <= 1 ==> r == f
    ensures |f.items| > 1 ==> r == RemoveItem(f, index)
    ensures |f.items| >= 1 ==> |r.items| >= 1
  {
    if |f.items| > 1 then RemoveItem(f, index) else f
  }

  /** The items `handleSubmit` keeps: those with a block and a positive amount, in order. */
  function ValidItems(items: seq<OrderItem>): (r: seq<OrderItem>)
    ensures forall x :: x in r <==> x in items && x.blockId != "" && x.amount > 0
    ensures |r| <= |items|
  {
    Filter(items, (i: OrderItem) => i.blockId != "" && i.amount > 0)
  }

  /** A list with no invalid item is passed on whole. */
  lemma ValidItemsKeepsValid(items: seq<OrderItem>)
    ensures ValidItems(items) == items <==> forall i | 0 <= i < |items| :: items[i].blockId != "" && items[i].amount > 0
  {
    FilterAll(items, (i: OrderItem) => i.blockId != "" && i.amount > 0);
  }

  /** The order the form hands to `addOrder`: the valid items, the signed-in user's name
      as creator, an empty note as none, and no assignees of its own. */
  function LocalDraft(f: Form, username: string): (d: LocalApp.OrderDraft)
    ensures d.items == ValidItems(f.items) && d.createdBy == username && d.assignedTo == []
    ensures d.notes.None? <==> f.notes == ""
    ensures d.notes.Some? ==> d.notes.value == f.notes
  {
    LocalApp.OrderDraft(ValidItems(f.items), f.startDate, f.deadline, f.autoAssign, [],
                        username, if f.notes == "" then None else Some(f.notes))
  }

  /** `handleSubmit`: without a valid item nothing happens; otherwise the order is added and
      the form reset. The dates are not checked here. `id` and `now` stand for the id and
      the time `addOrder` takes from the clock. */
  function Submit(st: LocalApp.AppState, user: LocalApp.User, f: Form, id: string, now: Instant): (r: (LocalApp.AppState, Form))
    ensures |ValidItems(f.items)| == 0 ==> r == (st, f)
    ensures |ValidItems(f.items)| > 0 ==>
              && r.1 == EmptyForm
              && |r.0.orders| == |st.orders| + 1 && r.0.orders[..|st.orders|] == st.orders
              && r.0.orders[|st.orders|].items == ValidItems(f.items)
              && r.0.orders[|st.orders|].createdBy == user.username
              && r.0.orders[|st.orders|].status == (if f.autoAssign then InProgress else Open)
    ensures r.0.users == st.users && r.0.absences == st.absences
  {
    if |ValidItems(f.items)| == 0 then (st, f)
    else (LocalApp.AddOrder(st, LocalDraft(f, user.username), id, now), EmptyForm)
  }

  /** The submit handler does not read the dates: given a valid item and empty date
      fields, it adds an order. (The page's `required` date inputs keep the browser from
      submitting such a form; that validation is outside this model.) */
  lemma SubmitIgnoresDates(st: LocalApp.AppState, user: LocalApp.User, id: string, now: Instant)
    ensures var f := Form([OrderItem("stone", 5, Dk)], "", "", false, "", "");
            |Submit(st, user, f, id, now).0.orders| == |st.orders| + 1
  {
    var items := [OrderItem("stone", 5, Dk)];
    assert items[0] in ValidItems(items);
  }

  /** The order list as shown: most recently added first, the list itself untouched. */
  function Display(orders: seq<LocalApp.Order>): (r: seq<LocalApp.Order>)
    ensures |r| == |orders|
    ensures forall i | 0 <= i < |orders| :: r[i] == orders[|orders| - 1 - i]
  {
    Reverse(orders)
  }

  /** An order just added heads the list, followed by the list as it was shown before. */
  lemma AddedOrderShownFirst(st: LocalApp.AppState, d: LocalApp.OrderDraft, id: string, now: Instant)
    ensures var r := LocalApp.AddOrder(st, d, id, now);
            && Display(r.orders)[0] == r.orders[|st.orders|]
            && Display(r.orders)[1..] == Display(st.orders)
  {
    var r := LocalApp.AddOrder(st, d, id, now);
    assert r.orders == st.orders + [r.orders[|st.orders|]];
    assert Display(r.orders)[1..] == Display(st.orders);
  }
}
