/** The profile dialog of the backend variant (app/src/sections/UserProfile.tsx): the
    profiled member's orders split by the state of their own progress row, the amount
    shown per ordered block, and the absence label. The member's absences are the
    filter `AbsenceView.MyRequests`. */
module UserProfile {
  import opened Collections
  import opened Schema
  import opened Domain

  /** The member's orders and the three lanes the tabs list. */
  datatype Lanes = Lanes(all: seq<FarmOrder>, accepted: seq<FarmOrder>, submitted: seq<FarmOrder>, confirmed: seq<FarmOrder>)

  /** The member's orders split into lanes: disjoint, each within the member's orders,
      and together holding each of them once. */
  function ProfileOrders(orders: seq<FarmOrder>, userId: Id): (r: Lanes)
    ensures forall o :: o in r.all <==> o in orders && HasProgress(o, userId)
    ensures forall o | o in r.accepted :: o in r.all && o !in r.submitted && o !in r.confirmed
    ensures forall o | o in r.submitted :: o in r.all && o !in r.confirmed
    ensures forall o | o in r.confirmed :: o in r.all
    ensures forall o | o in r.all :: o in r.accepted || o in r.submitted || o in r.confirmed
    ensures |r.accepted| + |r.submitted| + |r.confirmed| == |r.all|
    ensures forall o | o in r.accepted :: FindProgress(o, userId).value.status in {Accepted, Working}
  {
    LanesPartition(orders, userId);
    Lanes(OrdersOf(orders, userId),
          LaneOrders(orders, userId, ActiveLane),
          LaneOrders(orders, userId, SubmittedLane),
          LaneOrders(orders, userId, ConfirmedLane))
  }

  /** The amount shown next to an ordered block: what the member's own progress row records
      for it, or 0. */
  function ShownAmount(o: FarmOrder, userId: Id, item: OrderItem): (r: int)
    ensures !HasProgress(o, userId) ==> r == 0
    ensures r != 0 ==> exists c | c in FindProgress(o, userId).value.completedItems :: c.blockId == item.blockId && c.amount == r
    ensures HasProgress(o, userId) ==>
              var done := FindProgress(o, userId).value.completedItems;
              forall i | 0 <= i < |done| && done[i].blockId == item.blockId
                         && (forall j | 0 <= j < i :: done[j].blockId != item.blockId) ::
                r == done[i].amount
  {
    CompletedAmount(FindProgress(o, userId), item.blockId)
  }

  /** The absence label of the profile: approved and rejected are named, anything else
      reads as pending. */
  function AbsenceLabel(status: string): (r: string)
    ensures status == Approved.Name() ==> r == "Genehmigt"
    ensures status == Rejected.Name() ==> r == "Abgelehnt"
    ensures status != Approved.Name() && status != Rejected.Name() ==> r == "Ausstehend"
  {
    if status == "approved" then "Genehmigt"
    else if status == "rejected" then "Abgelehnt"
    else "Ausstehend"
  }

  /** On the three stored statuses the profile's label and the absence screen's agree; they
      differ only on text that is no status, which the absence screen shows as it is. */
  lemma AbsenceLabelsAgree(s: AbsenceStatus, other: string)
    ensures AbsenceLabel(s.Name()) == AbsenceStatusText(s.Name())
    ensures other !in {Pending.Name(), Approved.Name(), Rejected.Name()} ==>
              AbsenceLabel(other) == "Ausstehend" && AbsenceStatusText(other) == other
  {
  }
}
