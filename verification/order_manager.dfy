/** The admin's order screen of the backend variant (app/src/sections/FarmOrdersManager.tsx):
    the order form with its editable item list, the required-field check that guards
    both the submit handler and the submit button, and the list of progress rows
    waiting for confirmation. */
module OrderManager {
  import opened Collections
  import opened Text
  import opened Schema
  import opened Domain
  import OrderHooks

  /** The item a new row of the form starts with: no block, amount 1, unit `dk`. */
  const BlankItem := OrderItem("", 1, Dk)

  /** The form's state; `category` is the block category picked last, shared by all rows. */
  datatype Form = Form(
    items: seq<OrderItem>, startDate: string, deadline: string,
    autoAssign: bool, notes: string, category: string)

  /** The form as first shown, and as every submit leaves it. */
  const EmptyForm := Form([BlankItem], "", "", false, "", "")

  // ----- editing the item list -------------------------------------------

  /** `handleAddItem`: one blank item more at the end. */
  function AddItem(f: Form): (r: Form)
    ensures |r.items| == |f.items| + 1 && r.items[|f.items|] == BlankItem
    ensures forall i | 0 <= i < |f.items| :: r.items[i] == f.items[i]
    ensures r == f.(items := r.items)
  {
    f.(items := f.items + [BlankItem])
  }

  /** `handleRemoveItem`: drops the item at `index` (an index outside the list drops
      nothing). The handler does not keep the list non-empty itself. */
  function RemoveItem(f: Form, index: int): (r: Form)
    ensures 0 <= index < |f.items| ==> |r.items| == |f.items| - 1
    ensures 0 <= index < |f.items| ==> forall j | 0 <= j < |r.items| :: r.items[j] == f.items[if j < index then j else j + 1]
    ensures !(0 <= index < |f.items|) ==> r == f
    ensures r == f.(items := r.items)
  {
    f.(items := RemoveAt(f.items, index))
  }

  /** Removing the item just added gives the form back. */
  lemma RemoveUndoesAdd(f: Form)
    ensures RemoveItem(AddItem(f), |f.items|) == f
  {
    RemoveAppended(f.items, BlankItem);
  }

  /** The remove button is shown only while there is more than one item. */
  predicate RemoveOffered(f: Form)
  {
    |f.items| > 1
  }

  /** So the list a user can reach never becomes empty, although the handler alone
      empties a one-item list. */
  lemma RemoveKeepsAnItem(f: Form, index: int)
    requires RemoveOffered(f)
    ensures |RemoveItem(f, index).items| >= 1
    ensures RemoveItem(EmptyForm, 0).items == []
  {
  }

  /** The field `handleItemChange` writes, with its new value. */
  datatype Field = BlockField(blockId: string) | AmountField(amount: int) | UnitField(unit: Unit)

  /** `handleItemChange`: the one field of the one item changes, nothing else. */
  function ChangeItem(f: Form, index: nat, field: Field): (r: Form)
    requires index < |f.items|
    ensures |r.items| == |f.items|
    ensures forall j | 0 <= j < |f.items| && j != index :: r.items[j] == f.items[j]
    ensures var (a, b) := (f.items[index], r.items[index]);
            && b.blockId == (if field.BlockField? then field.blockId else a.blockId)
            && b.amount == (if field.AmountField? then field.amount else a.amount)
            && b.unit == (if field.UnitField? then field.unit else a.unit)
    ensures r == f.(items := r.items)
  {
    var it := f.items[index];
    var changed := match field
      case BlockField(b) => it.(blockId := b)
      case AmountField(n) => it.(amount := n)
      case UnitField(u) => it.(unit := u);
    f.(items := SetAt(f.items, index, changed))
  }

  /** Of two edits of the same field of the same item, the later one is what remains. */
  lemma LaterEditWins(f: Form, index: nat, first: Field, second: Field)
    requires index < |f.items|
    requires first.BlockField? == second.BlockField? && first.AmountField? == second.AmountField?
    ensures ChangeItem(ChangeItem(f, index, first), index, second) == ChangeItem(f, index, second)
  {
    var a := ChangeItem(ChangeItem(f, index, first), index, second);
    var b := ChangeItem(f, index, second);
    assert a.items == b.items;
  }

  /** `parseInt(value) || 1`: the amount an edit of an amount input sends. Zero and
      unreadable text both become 1, so an amount is never set to zero this way. */
  function AmountInput(text: string): (n: int)
    ensures n != 0
    ensures ParseInt(text).Some? && ParseInt(text).value != 0 ==> n == ParseInt(text).value
    ensures ParseInt(text).None? || ParseInt(text).value == 0 ==> n == 1
  {
    OrFallback(ParseInt(text), 1)
  }

  /** An amount input reads back the non-zero amount it shows; a shown 0 reads as 1. */
  lemma AmountInputRoundTrip(n: int)
    ensures n != 0 ==> AmountInput(Show(n)) == n
    ensures AmountInput(Show(0)) == 1
  {
    ParseShow(n);
    ParseShow(0);
  }

  /** `handleCategoryChange`: records the category and clears the block of that item only. */
  function ChangeCategory(f: Form, index: nat, category: string): (r: Form)
    requires index < |f.items|
    ensures r.category == category && |r.items| == |f.items|
    ensures r.items[index] == f.items[index].(blockId := "")
    ensures forall j | 0 <= j < |f.items| && j != index :: r.items[j] == f.items[j]
    ensures r == f.(items := r.items, category := category)
  {
    ChangeItem(f, index, BlockField("")).(category := category)
  }

  /** A category change always leaves the form unsubmittable until a block is picked again. */
  lemma CategoryChangeBlocksSubmit(f: Form, index: nat, category: string)
    requires index < |f.items|
    ensures !CanSubmit(ChangeCategory(f, index, category))
  {
    var r := ChangeCategory(f, index, category);
    assert r.items[index].blockId == "";
  }

  // ----- submitting ------------------------------------------------------

  /** The check `handleSubmit` starts with, which also disables the button: every item has
      a block, and both dates are filled in. Amounts are not checked. */
  predicate CanSubmit(f: Form)
  {
    && (forall i | 0 <= i < |f.items| :: f.items[i].blockId != "")
    && f.startDate != ""
    && f.deadline != ""
  }

  /** The order the form hands to `createOrder`: status `open`, the whole item list. */
  function Draft(f: Form): (d: OrderHooks.OrderDraft)
    ensures d.items == f.items && d.status == Open
    ensures d.startDate == f.startDate && d.deadline == f.deadline && d.autoAssign == f.autoAssign
    ensures d.notes == Some(f.notes)
  {
    OrderHooks.OrderDraft(f.items, f.startDate, f.deadline, Open, f.autoAssign, Some(f.notes))
  }

  /** `handleSubmit`: nothing happens unless `CanSubmit`; otherwise the order is created
      (as far as `w` says the database accepts it) and the form is reset, whatever the
      outcome of the inserts. */
  function Submit(db: Db, user: Option<Id>, f: Form, now: Instant, w: OrderHooks.Outcome): (r: (Db, Form))
    ensures !CanSubmit(f) ==> r == (db, f)
    ensures CanSubmit(f) ==> r.1 == EmptyForm
    ensures CanSubmit(f) && user.Some? && w.orderInserted ==>
              && r.0.orders == db.orders + [OrderRow(db.nextId, f.startDate, f.deadline, Open, f.autoAssign, user.value, now,
                                                     if f.notes == "" then None else Some(f.notes))]
              && r.0.items == db.items + OrderHooks.ItemRows(db.nextId, db.nextId + 1, if w.itemsInserted then f.items else [])
    ensures user.None? || !w.orderInserted ==> r.0 == db
  {
    if !CanSubmit(f) then (db, f)
    else (OrderHooks.CreateOrder(db, user, Draft(f), now, w), EmptyForm)
  }

  /** The form after a submit cannot be submitted again as it is. */
  lemma SubmitLeavesBlankForm(db: Db, user: Option<Id>, f: Form, now: Instant, w: OrderHooks.Outcome)
    requires CanSubmit(f)
    ensures !CanSubmit(Submit(db, user, f, now, w).1)
  {
    assert EmptyForm.items[0].blockId == "";
  }

  // ----- waiting confirmations -------------------------------------------

  /** One row of the "waiting for confirmation" list. */
  datatype Confirmation = Confirmation(order: FarmOrder, progress: UserOrderProgress, username: string)

  function Waiting(o: FarmOrder, users: seq<User>): (r: seq<Confirmation>)
    ensures |r| == |Filter(o.userProgress, (p: UserOrderProgress) => p.status == Submitted)|
    ensures forall i | 0 <= i < |r| ::
              var p := Filter(o.userProgress, (p: UserOrderProgress) => p.status == Submitted)[i];
              r[i] == Confirmation(o, p, UserName(users, p.userId))
  {
    Map(Filter(o.userProgress, (p: UserOrderProgress) => p.status == Submitted),
        (p: UserOrderProgress) => Confirmation(o, p, UserName(users, p.userId)))
  }

  /** `pendingConfirmations`: an entry for each submitted progress row of each order, with
      the member's name or `'Unbekannt'`. */
  function PendingConfirmations(orders: seq<FarmOrder>, users: seq<User>): (r: seq<Confirmation>)
    ensures forall c | c in r ::
              && c.order in orders && c.progress in c.order.userProgress
              && c.progress.status == Submitted && c.username == UserName(users, c.progress.userId)
    ensures forall o, p | o in orders && p in o.userProgress && p.status == Submitted ::
              Confirmation(o, p, UserName(users, p.userId)) in r
  {
    if |orders| == 0 then []
    else
      var here := Waiting(orders[0], users);
      var sub := Filter(orders[0].userProgress, (p: UserOrderProgress) => p.status == Submitted);
      assert forall p | p in sub :: Confirmation(orders[0], p, UserName(users, p.userId)) in here by {
        forall p | p in sub
          ensures Confirmation(orders[0], p, UserName(users, p.userId)) in here
        {
          var i :| 0 <= i < |sub| && sub[i] == p;
          assert here[i] == Confirmation(orders[0], p, UserName(users, p.userId));
        }
      }
      assert forall c | c in here :: c.order == orders[0] && c.progress in sub && c.username == UserName(users, c.progress.userId) by {
        forall c | c in here
          ensures c.order == orders[0] && c.progress in sub && c.username == UserName(users, c.progress.userId)
        {
          var i :| 0 <= i < |here| && here[i] == c;
          assert sub[i] in sub;
        }
      }
      here + PendingConfirmations(orders[1..], users)
  }

  /** The list holds exactly the submitted rows, in order: as many entries as there are
      submitted rows, which is the count the dashboard shows. */
  lemma {:induction false} PendingAreSubmittedRows(orders: seq<FarmOrder>, users: seq<User>)
    ensures Map(PendingConfirmations(orders, users), (c: Confirmation) => c.progress) == SubmittedRows(orders)
    ensures |PendingConfirmations(orders, users)| == SubmittedCount(orders)
  {
    SubmittedRowsCount(orders);
    if |orders| > 0 {
      PendingAreSubmittedRows(orders[1..], users);
      var here := Waiting(orders[0], users);
      var rest := PendingConfirmations(orders[1..], users);
      MapConcat(here, rest, (c: Confirmation) => c.progress);
      assert Map(here, (c: Confirmation) => c.progress)
             == Filter(orders[0].userProgress, (p: UserOrderProgress) => p.status == Submitted);
    }
  }
}
