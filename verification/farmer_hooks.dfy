/** The member's order hook of the backend variant (app/src/hooks/useFarmerOrders.ts):
    accepting an order, recording the completed amount of one block, and
    submitting. Lookups go through supabase's `.single()`, which finds a row only
    when exactly one matches; `ok` says whether the database accepted the write. */
module FarmerHooks {
  import opened Collections
  import opened Schema
  import OrderHooks

  /** The completed-amount row of one block under one progress row. */
  predicate IsBlockOf(c: CompletedRow, progressId: Id, blockId: string)
  {
    c.progressId == progressId && c.blockId == blockId
  }

  /** At most one completed-amount row per (progress row, block): what `updateProgress`
      keeps true when it starts out true. */
  ghost predicate UniqueBlocks(db: Db)
  {
    UniqueBlockRows(db.completed)
  }

  ghost predicate UniqueBlockRows(completed: seq<CompletedRow>)
  {
    forall i, j | 0 <= i < j < |completed| ::
      !(completed[i].progressId == completed[j].progressId && completed[i].blockId == completed[j].blockId)
  }

  /** No two completed-amount rows share an id (the table's primary key). */
  ghost predicate DistinctCompletedIds(db: Db)
  {
    forall i, j | 0 <= i < j < |db.completed| :: db.completed[i].id != db.completed[j].id
  }

  /** `acceptOrder`: inserts an `accepted` progress row for the signed-in member, without
      looking for an existing one. */
  function AcceptOrder(db: Db, user: Option<Id>, orderId: Id, ok: bool): (r: Db)
    ensures user.None? || !ok ==> r == db
    ensures user.Some? && ok ==>
              && r.progress == db.progress + [ProgressRow(db.nextId, orderId, user.value, Accepted, None, None, None)]
              && r.nextId == db.nextId + 1
    ensures user.Some? && ok ==>
              Count(r.progress, (p: ProgressRow) => IsRowOf(p, orderId, user.value))
              == Count(db.progress, (p: ProgressRow) => IsRowOf(p, orderId, user.value)) + 1
    ensures r == db.(progress := r.progress, nextId := r.nextId)
  {
    if user.None? || !ok then db
    else
      var row := ProgressRow(db.nextId, orderId, user.value, Accepted, None, None, None);
      CountAppend(db.progress, row, (p: ProgressRow) => IsRowOf(p, orderId, user.value));
      db.(progress := db.progress + [row], nextId := db.nextId + 1)
  }

  /** Accepting keeps every id below the counter when the order id is an existing one,
      which the foreign key of `user_order_progress.order_id` guarantees for an accepted
      insert. */
  lemma AcceptKeepsIds(db: Db, user: Option<Id>, orderId: Id, ok: bool)
    requires IdsBelowNext(db) && orderId < db.nextId
    ensures IdsBelowNext(AcceptOrder(db, user, orderId, ok))
  {
  }

  /** The write `updateProgress` makes to `completed_items` under the progress row
      `progressId`: when `.single()` finds the block's row, every row carrying that row's id
      takes the amount; otherwise a row is inserted under the id `nextId`. */
  function Upsert(completed: seq<CompletedRow>, nextId: Id, progressId: Id, blockId: string, amount: int): (r: seq<CompletedRow>)
    ensures Count(completed, (c: CompletedRow) => IsBlockOf(c, progressId, blockId)) == 1 ==> |r| == |completed|
    ensures Count(completed, (c: CompletedRow) => IsBlockOf(c, progressId, blockId)) != 1 ==>
              r == completed + [CompletedRow(nextId, progressId, blockId, amount)]
  {
    match Single(completed, (c: CompletedRow) => IsBlockOf(c, progressId, blockId))
    case Some(c) => UpdateWhere(completed, (x: CompletedRow) => x.id == c.id, (x: CompletedRow) => x.(amount := amount))
    case None => completed + [CompletedRow(nextId, progressId, blockId, amount)]
  }

  /** `updateProgress`: when the member has exactly one progress row on the order, sets the
      completed amount of the block: the one existing row for the block is overwritten,
      otherwise a new row is inserted. Only `completed_items` changes; the progress row's
      status stays as it is. */
  function UpdateProgress(db: Db, user: Option<Id>, orderId: Id, blockId: string, amount: int, ok: bool): (r: Db)
    ensures user.None? || !ok ==> r == db
    ensures user.Some? && Count(db.progress, (p: ProgressRow) => IsRowOf(p, orderId, user.value)) != 1 ==> r == db
    ensures r == db.(completed := r.completed, nextId := r.nextId)
    ensures r.nextId == db.nextId || r.nextId == db.nextId + 1
  {
    if user.None? || !ok then db
    else match Single(db.progress, (p: ProgressRow) => IsRowOf(p, orderId, user.value))
      case None => db
      case Some(p) =>
        var inserts := Count(db.completed, (c: CompletedRow) => IsBlockOf(c, p.id, blockId)) != 1;
        db.(completed := Upsert(db.completed, db.nextId, p.id, blockId, amount),
            nextId := if inserts then db.nextId + 1 else db.nextId)
  }

  // ----- the upsert on one table ------------------------------------------

  /** With at most one row for the block beforehand, the block ends up with exactly one
      row, and it carries the amount. */
  lemma UpsertRecords(completed: seq<CompletedRow>, nextId: Id, progressId: Id, blockId: string, amount: int)
    requires UniqueBlockRows(completed)
    ensures var r := Upsert(completed, nextId, progressId, blockId, amount);
            && Count(r, (c: CompletedRow) => IsBlockOf(c, progressId, blockId)) == 1
            && forall i | 0 <= i < |r| && IsBlockOf(r[i], progressId, blockId) :: r[i].amount == amount
  {
    var r := Upsert(completed, nextId, progressId, blockId, amount);
    var isBlock := (c: CompletedRow) => IsBlockOf(c, progressId, blockId);
    CountAtMostOne(completed, isBlock);
    match Single(completed, isBlock)
    case Some(c) =>
      var setAmount := (x: CompletedRow) => x.(amount := amount);
      CountUpdateWhere(completed, (x: CompletedRow) => x.id == c.id, setAmount, isBlock);
      forall i | 0 <= i < |r| && isBlock(r[i])
        ensures r[i].amount == amount
      {
        var k :| 0 <= k < |completed| && completed[k] == c;
        CountOneUnique(completed, isBlock, i, k);
      }
    case None =>
      CountAppend(completed, CompletedRow(nextId, progressId, blockId, amount), isBlock);
  }

  /** Given distinct ids, every row of another block or progress row survives. */
  lemma UpsertKeepsOthers(completed: seq<CompletedRow>, nextId: Id, progressId: Id, blockId: string, amount: int)
    requires forall i, j | 0 <= i < j < |completed| :: completed[i].id != completed[j].id
    ensures var r := Upsert(completed, nextId, progressId, blockId, amount);
            forall c | c in completed && !IsBlockOf(c, progressId, blockId) :: c in r
  {
    var r := Upsert(completed, nextId, progressId, blockId, amount);
    var isBlock := (c: CompletedRow) => IsBlockOf(c, progressId, blockId);
    match Single(completed, isBlock)
    case Some(c) =>
      forall x | x in completed && !isBlock(x)
        ensures x in r
      {
        var i :| 0 <= i < |completed| && completed[i] == x;
        var j :| 0 <= j < |completed| && completed[j] == c;
        assert i != j;
        assert r[i] == x;
      }
    case None =>
  }

  /** Ids and progress references stay below the counter, which moves on exactly when a
      row is inserted, and each block keeps at most one row. */
  lemma UpsertKeepsInvariant(completed: seq<CompletedRow>, nextId: Id, progressId: Id, blockId: string, amount: int)
    requires forall i | 0 <= i < |completed| :: completed[i].id < nextId && completed[i].progressId < nextId
    requires progressId < nextId && UniqueBlockRows(completed)
    ensures var r := Upsert(completed, nextId, progressId, blockId, amount);
            var next := if Count(completed, (c: CompletedRow) => IsBlockOf(c, progressId, blockId)) != 1 then nextId + 1 else nextId;
            && (forall i | 0 <= i < |r| :: r[i].id < next && r[i].progressId < next)
            && UniqueBlockRows(r)
  {
    var isBlock := (c: CompletedRow) => IsBlockOf(c, progressId, blockId);
    if Single(completed, isBlock).None? {
      CountAtMostOne(completed, isBlock);
      assert forall i | 0 <= i < |completed| :: !isBlock(completed[i]);
    }
  }

  /** After the write, every row sharing its id with the block's row carries the amount. */
  lemma SameIdSameAmount(completed: seq<CompletedRow>, nextId: Id, progressId: Id, blockId: string, amount: int, i: nat, k: nat)
    requires forall j | 0 <= j < |completed| :: completed[j].id < nextId
    requires UniqueBlockRows(completed)
    requires var r := Upsert(completed, nextId, progressId, blockId, amount);
             && i < |r| && k < |r| && IsBlockOf(r[k], progressId, blockId) && r[i].id == r[k].id
    ensures Upsert(completed, nextId, progressId, blockId, amount)[i].amount == amount
  {
    var r := Upsert(completed, nextId, progressId, blockId, amount);
    var isBlock := (c: CompletedRow) => IsBlockOf(c, progressId, blockId);
    CountAtMostOne(completed, isBlock);
    match Single(completed, isBlock)
    case Some(c) =>
      var j :| 0 <= j < |completed| && completed[j] == c;
      CountOneUnique(completed, isBlock, k, j);
    case None =>
      assert k == |completed|;
  }

  /** Writing the same amount again finds the row the first write left and changes nothing. */
  lemma UpsertIdempotent(completed: seq<CompletedRow>, nextId: Id, laterId: Id, progressId: Id, blockId: string, amount: int)
    requires forall j | 0 <= j < |completed| :: completed[j].id < nextId
    requires UniqueBlockRows(completed)
    ensures var once := Upsert(completed, nextId, progressId, blockId, amount);
            Upsert(once, laterId, progressId, blockId, amount) == once
  {
    var once := Upsert(completed, nextId, progressId, blockId, amount);
    var isBlock := (c: CompletedRow) => IsBlockOf(c, progressId, blockId);
    UpsertRecords(completed, nextId, progressId, blockId, amount);
    var c := Single(once, isBlock).value;
    var k :| 0 <= k < |once| && once[k] == c;
    var twice := Upsert(once, laterId, progressId, blockId, amount);
    assert twice == UpdateWhere(once, (x: CompletedRow) => x.id == c.id, (x: CompletedRow) => x.(amount := amount));
    forall i | 0 <= i < |once| && once[i].id == c.id
      ensures once[i].amount == amount
    {
      SameIdSameAmount(completed, nextId, progressId, blockId, amount, i, k);
    }
    assert twice == once;
  }

  // ----- the upsert seen through the tables --------------------------------

  /** With one progress row and at most one amount per block, the block ends up with exactly
      one completed-amount row, carrying the amount just written. */
  lemma UpdateProgressRecords(db: Db, user: Id, orderId: Id, blockId: string, amount: int, progressId: Id)
    requires UniqueBlocks(db)
    requires Single(db.progress, (p: ProgressRow) => IsRowOf(p, orderId, user)).Some?
    requires progressId == Single(db.progress, (p: ProgressRow) => IsRowOf(p, orderId, user)).value.id
    ensures var r := UpdateProgress(db, Some(user), orderId, blockId, amount, true);
            && Count(r.completed, (c: CompletedRow) => IsBlockOf(c, progressId, blockId)) == 1
            && forall i | 0 <= i < |r.completed| && IsBlockOf(r.completed[i], progressId, blockId) :: r.completed[i].amount == amount
  {
    UpsertRecords(db.completed, db.nextId, progressId, blockId, amount);
  }

  /** Every other completed amount survives an update untouched. */
  lemma UpdateProgressKeepsOthers(db: Db, user: Id, orderId: Id, blockId: string, amount: int, progressId: Id)
    requires DistinctCompletedIds(db)
    requires Single(db.progress, (p: ProgressRow) => IsRowOf(p, orderId, user)).Some?
    requires progressId == Single(db.progress, (p: ProgressRow) => IsRowOf(p, orderId, user)).value.id
    ensures var r := UpdateProgress(db, Some(user), orderId, blockId, amount, true);
            forall c | c in db.completed && !IsBlockOf(c, progressId, blockId) :: c in r.completed
  {
    UpsertKeepsOthers(db.completed, db.nextId, progressId, blockId, amount);
  }

  /** Updating keeps every id below `nextId` and at most one amount per block. */
  lemma UpdateProgressKeepsInvariant(db: Db, user: Option<Id>, orderId: Id, blockId: string, amount: int, ok: bool)
    requires IdsBelowNext(db) && UniqueBlocks(db)
    ensures var r := UpdateProgress(db, user, orderId, blockId, amount, ok);
            IdsBelowNext(r) && UniqueBlocks(r)
  {
    if user.Some? && ok {
      var mine := (p: ProgressRow) => IsRowOf(p, orderId, user.value);
      if Single(db.progress, mine).Some? {
        var p := Single(db.progress, mine).value;
        assert p.id < db.nextId;
        UpsertKeepsInvariant(db.completed, db.nextId, p.id, blockId, amount);
      }
    }
  }

  /** Writing the same amount twice is writing it once. */
  lemma UpdateProgressIdempotent(db: Db, user: Option<Id>, orderId: Id, blockId: string, amount: int, ok: bool)
    requires IdsBelowNext(db) && UniqueBlocks(db)
    ensures var once := UpdateProgress(db, user, orderId, blockId, amount, ok);
            UpdateProgress(once, user, orderId, blockId, amount, ok) == once
  {
    if user.Some? && ok {
      var mine := (p: ProgressRow) => IsRowOf(p, orderId, user.value);
      if Single(db.progress, mine).Some? {
        var p := Single(db.progress, mine).value;
        var once := UpdateProgress(db, user, orderId, blockId, amount, ok);
        UpsertRecords(db.completed, db.nextId, p.id, blockId, amount);
        UpsertIdempotent(db.completed, db.nextId, once.nextId, p.id, blockId, amount);
      }
    }
  }

  /** Accepting the same order twice leaves two progress rows, and from then on
      `updateProgress` finds none by `.single()` and changes nothing. */
  lemma DoubleAcceptBlocksUpdates(db: Db, user: Id, orderId: Id, blockId: string, amount: int, ok: bool)
    ensures var twice := AcceptOrder(AcceptOrder(db, Some(user), orderId, true), Some(user), orderId, true);
            UpdateProgress(twice, Some(user), orderId, blockId, amount, ok) == twice
  {
    var once := AcceptOrder(db, Some(user), orderId, true);
    var twice := AcceptOrder(once, Some(user), orderId, true);
    assert Count(twice.progress, (p: ProgressRow) => IsRowOf(p, orderId, user)) >= 2;
  }

  /** With two amount rows for one block already present, an update inserts a third
      instead of overwriting either. */
  lemma DuplicateBlocksGrow(db: Db, user: Id, orderId: Id, blockId: string, amount: int, progressId: Id)
    requires Single(db.progress, (p: ProgressRow) => IsRowOf(p, orderId, user)).Some?
    requires progressId == Single(db.progress, (p: ProgressRow) => IsRowOf(p, orderId, user)).value.id
    requires Count(db.completed, (c: CompletedRow) => IsBlockOf(c, progressId, blockId)) >= 2
    ensures var r := UpdateProgress(db, Some(user), orderId, blockId, amount, true);
            r.completed == db.completed + [CompletedRow(db.nextId, progressId, blockId, amount)]
  {
  }

  /** `submitOrder`: every progress row of the member on the order becomes `submitted`,
      stamped with the time; nothing checks the prior status or the completed amounts. */
  function SubmitOrder(db: Db, user: Option<Id>, orderId: Id, now: Instant, ok: bool): (r: Db)
    ensures user.None? || !ok ==> r == db
    ensures |r.progress| == |db.progress|
    ensures user.Some? && ok ==>
              forall i | 0 <= i < |db.progress| ::
                r.progress[i] == if IsRowOf(db.progress[i], orderId, user.value)
                                 then db.progress[i].(status := Submitted, submittedAt := Some(now))
                                 else db.progress[i]
    ensures r == db.(progress := r.progress)
  {
    if user.None? || !ok then db
    else
      db.(progress := UpdateWhere(db.progress, (p: ProgressRow) => IsRowOf(p, orderId, user.value),
                                  (p: ProgressRow) => p.(status := Submitted, submittedAt := Some(now))))
  }

  /** Submitting again after a confirmation turns the row back to `submitted`: the hook
      has no guard on the prior status. */
  /** Submitting touches no id. */
  lemma SubmitKeepsIds(db: Db, user: Option<Id>, orderId: Id, now: Instant, ok: bool)
    requires IdsBelowNext(db)
    ensures IdsBelowNext(SubmitOrder(db, user, orderId, now, ok))
  {
  }

  lemma SubmitAfterConfirmReverts(db: Db, user: Id, orderId: Id, now: Instant, i: nat)
    requires i < |db.progress| && IsRowOf(db.progress[i], orderId, user) && db.progress[i].status == Confirmed
    ensures SubmitOrder(db, Some(user), orderId, now, true).progress[i].status == Submitted
    ensures SubmitOrder(db, Some(user), orderId, now, true).progress[i].confirmedBy == db.progress[i].confirmedBy
  {
  }

  /** The full life of one member's work on an order the member had not yet accepted:
      accept, record an amount, submit, and have an administrator confirm. Exactly one
      progress row and one completed-amount row are written, and the row ends `confirmed`
      with both stamps and the confirmer. */
  lemma Lifecycle(db: Db, user: Id, admin: Id, orderId: Id, blockId: string, amount: int, submitted: Instant, confirmed: Instant)
    requires IdsBelowNext(db)
    requires Count(db.progress, (p: ProgressRow) => IsRowOf(p, orderId, user)) == 0
    ensures var accepted := AcceptOrder(db, Some(user), orderId, true);
            var recorded := UpdateProgress(accepted, Some(user), orderId, blockId, amount, true);
            var handedIn := SubmitOrder(recorded, Some(user), orderId, submitted, true);
            var done := OrderHooks.ConfirmOrder(handedIn, Some(admin), orderId, user, confirmed, true);
            && done.progress == db.progress + [ProgressRow(db.nextId, orderId, user, Confirmed, Some(submitted), Some(confirmed), Some(admin))]
            && done.completed == db.completed + [CompletedRow(db.nextId + 1, db.nextId, blockId, amount)]
  {
    var accepted := AcceptOrder(db, Some(user), orderId, true);
    var row := ProgressRow(db.nextId, orderId, user, Accepted, None, None, None);
    AcceptFresh(db, user, orderId);
    RecordFresh(accepted, user, orderId, blockId, amount, row);
    var recorded := UpdateProgress(accepted, Some(user), orderId, blockId, amount, true);
    StampsFresh(db.progress, row, user, admin, orderId, submitted, confirmed);
  }

  lemma AcceptFresh(db: Db, user: Id, orderId: Id)
    requires Count(db.progress, (p: ProgressRow) => IsRowOf(p, orderId, user)) == 0
    ensures Single(AcceptOrder(db, Some(user), orderId, true).progress, (p: ProgressRow) => IsRowOf(p, orderId, user))
            == Some(ProgressRow(db.nextId, orderId, user, Accepted, None, None, None))
  {
    var mine := (p: ProgressRow) => IsRowOf(p, orderId, user);
    var row := ProgressRow(db.nextId, orderId, user, Accepted, None, None, None);
    var accepted := AcceptOrder(db, Some(user), orderId, true);
    var r := Single(accepted.progress, mine).value;
    var i :| 0 <= i < |accepted.progress| && accepted.progress[i] == r;
    CountOneUnique(accepted.progress, mine, i, |db.progress|);
  }

  lemma RecordFresh(db: Db, user: Id, orderId: Id, blockId: string, amount: int, row: ProgressRow)
    requires forall i | 0 <= i < |db.completed| :: db.completed[i].progressId != row.id
    requires Single(db.progress, (p: ProgressRow) => IsRowOf(p, orderId, user)) == Some(row)
    ensures var r := UpdateProgress(db, Some(user), orderId, blockId, amount, true);
            r.completed == db.completed + [CompletedRow(db.nextId, row.id, blockId, amount)] && r.progress == db.progress
  {
    var isBlock := (c: CompletedRow) => IsBlockOf(c, row.id, blockId);
    assert Count(db.completed, isBlock) == 0;
  }

  lemma StampsFresh(progress: seq<ProgressRow>, row: ProgressRow, user: Id, admin: Id, orderId: Id, submitted: Instant, confirmed: Instant)
    requires Count(progress, (p: ProgressRow) => IsRowOf(p, orderId, user)) == 0
    requires IsRowOf(row, orderId, user)
    ensures forall db: Db | db.progress == progress + [row] ::
              OrderHooks.ConfirmOrder(SubmitOrder(db, Some(user), orderId, submitted, true), Some(admin), orderId, user, confirmed, true).progress
              == progress + [row.(status := Confirmed, submittedAt := Some(submitted), confirmedAt := Some(confirmed), confirmedBy := Some(admin))]
  {
  }
}
