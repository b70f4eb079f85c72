/** The backend's relational schema (app/src/types/supabase.ts): the enumerated
    columns and one row type per table, held in memory as a `Db` value.
    Row ids are drawn from `Db.nextId`, which stands for the database's own
    id generator. */
module Schema {
  import opened Collections

  type Id = nat

  /** Milliseconds since the epoch; the backend's `timestamptz` columns and `toISOString` values. */
  type Instant = int

  datatype Role = Admin | Farmer | Viewer
  {
    function Name(): string
    {
      match this
      case Admin => "admin"
      case Farmer => "farmer"
      case Viewer => "viewer"
    }
  }

  /** Stored order status; the "overdue" label some views show is never stored. */
  datatype OrderStatus = Open | InProgress | Completed
  {
    function Name(): string
    {
      match this
      case Open => "open"
      case InProgress => "in_progress"
      case Completed => "completed"
    }
  }

  datatype ProgressStatus = Accepted | Working | Submitted | Confirmed
  {
    function Name(): string
    {
      match this
      case Accepted => "accepted"
      case Working => "in_progress"
      case Submitted => "submitted"
      case Confirmed => "confirmed"
    }
  }

  datatype Unit = Dk | Kisten
  {
    function Name(): string
    {
      match this
      case Dk => "dk"
      case Kisten => "kisten"
    }
  }

  datatype AbsenceStatus = Pending | Approved | Rejected
  {
    function Name(): string
    {
      match this
      case Pending => "pending"
      case Approved => "approved"
      case Rejected => "rejected"
    }
  }

  /** Reads a `profiles.role` column value back into the enumeration. */
  function RoleOf(name: string): (r: Option<Role>)
    ensures r.Some? ==> r.value.Name() == name
    ensures r.None? <==> name !in {"admin", "farmer", "viewer"}
  {
    if name == "admin" then Some(Admin)
    else if name == "farmer" then Some(Farmer)
    else if name == "viewer" then Some(Viewer)
    else None
  }

  /** Reads a `farm_orders.status` column value back into the enumeration. */
  function OrderStatusOf(name: string): (r: Option<OrderStatus>)
    ensures r.Some? ==> r.value.Name() == name
    ensures r.None? <==> name !in {"open", "in_progress", "completed"}
  {
    if name == "open" then Some(Open)
    else if name == "in_progress" then Some(InProgress)
    else if name == "completed" then Some(Completed)
    else None
  }

  /** Reads a `user_order_progress.status` column value back into the enumeration. */
  function ProgressStatusOf(name: string): (r: Option<ProgressStatus>)
    ensures r.Some? ==> r.value.Name() == name
    ensures r.None? <==> name !in {"accepted", "in_progress", "submitted", "confirmed"}
  {
    if name == "accepted" then Some(Accepted)
    else if name == "in_progress" then Some(Working)
    else if name == "submitted" then Some(Submitted)
    else if name == "confirmed" then Some(Confirmed)
    else None
  }

  /** Reads an `order_items.unit` column value back into the enumeration. */
  function UnitOf(name: string): (r: Option<Unit>)
    ensures r.Some? ==> r.value.Name() == name
    ensures r.None? <==> name !in {"dk", "kisten"}
  {
    if name == "dk" then Some(Dk)
    else if name == "kisten" then Some(Kisten)
    else None
  }

  /** Reads an `absence_requests.status` column value back into the enumeration. */
  function AbsenceStatusOf(name: string): (r: Option<AbsenceStatus>)
    ensures r.Some? ==> r.value.Name() == name
    ensures r.None? <==> name !in {"pending", "approved", "rejected"}
  {
    if name == "pending" then Some(Pending)
    else if name == "approved" then Some(Approved)
    else if name == "rejected" then Some(Rejected)
    else None
  }

  /** Every enumerated value survives the trip through its column value, so distinct values
      are stored distinctly; "overdue" is no order status. */
  lemma ColumnValuesRoundTrip(ro: Role, os: OrderStatus, ps: ProgressStatus, u: Unit, a: AbsenceStatus)
    ensures RoleOf(ro.Name()) == Some(ro)
    ensures OrderStatusOf(os.Name()) == Some(os)
    ensures ProgressStatusOf(ps.Name()) == Some(ps)
    ensures UnitOf(u.Name()) == Some(u)
    ensures AbsenceStatusOf(a.Name()) == Some(a)
    ensures OrderStatusOf("overdue") == None
  {
  }

  datatype ProfileRow = ProfileRow(id: Id, username: string, role: Role, createdAt: Instant, createdBy: Option<Id>)

  datatype OrderRow = OrderRow(
    id: Id, startDate: string, deadline: string, status: OrderStatus,
    autoAssign: bool, createdBy: Id, createdAt: Instant, notes: Option<string>)

  datatype ItemRow = ItemRow(id: Id, orderId: Id, blockId: string, amount: int, unit: Unit)

  datatype ProgressRow = ProgressRow(
    id: Id, orderId: Id, userId: Id, status: ProgressStatus,
    submittedAt: Option<Instant>, confirmedAt: Option<Instant>, confirmedBy: Option<Id>)

  /** The progress row is the given member's on the given order. */
  predicate IsRowOf(p: ProgressRow, orderId: Id, userId: Id)
  {
    p.orderId == orderId && p.userId == userId
  }

  /** One completed amount of one block, for one progress row. */
  datatype CompletedRow = CompletedRow(id: Id, progressId: Id, blockId: string, amount: int)

  datatype AbsenceRow = AbsenceRow(
    id: Id, userId: Id, startDate: string, endDate: string, reason: string,
    status: AbsenceStatus, requestedAt: Instant)

  datatype Db = Db(
    profiles: seq<ProfileRow>,
    orders: seq<OrderRow>,
    items: seq<ItemRow>,
    progress: seq<ProgressRow>,
    completed: seq<CompletedRow>,
    absences: seq<AbsenceRow>,
    nextId: Id)

  /** Every id the database has handed out, and every reference to one, lies below `nextId`. */
  ghost predicate IdsBelowNext(db: Db)
  {
    && (forall i | 0 <= i < |db.orders| :: db.orders[i].id < db.nextId)
    && (forall i | 0 <= i < |db.items| :: db.items[i].id < db.nextId && db.items[i].orderId < db.nextId)
    && (forall i | 0 <= i < |db.progress| :: db.progress[i].id < db.nextId && db.progress[i].orderId < db.nextId)
    && (forall i | 0 <= i < |db.completed| :: db.completed[i].id < db.nextId && db.completed[i].progressId < db.nextId)
    && (forall i | 0 <= i < |db.absences| :: db.absences[i].id < db.nextId)
  }
}
