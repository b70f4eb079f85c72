/** The absence hook of the backend variant (app/src/hooks/useAbsences.ts): filing a
    request, approving or rejecting one, and reading them back joined with the
    requester's username. `ok` says whether the database accepted the write. */
module AbsenceHooks {
  import opened Collections
  import opened Schema
  import opened Domain

  /** `createAbsence`: inserts a request of the signed-in user. The status is left to the
      column default, `pending`; the dates are not compared with each other. */
  function CreateAbsence(db: Db, user: Option<Id>, startDate: string, endDate: string, reason: string, now: Instant, ok: bool): (r: Db)
    ensures user.None? || !ok ==> r == db
    ensures user.Some? && ok ==>
              && r.absences == db.absences + [AbsenceRow(db.nextId, user.value, startDate, endDate, reason, Pending, now)]
              && r.nextId == db.nextId + 1
    ensures r == db.(absences := r.absences, nextId := r.nextId)
  {
    if user.None? || !ok then db
    else db.(absences := db.absences + [AbsenceRow(db.nextId, user.value, startDate, endDate, reason, Pending, now)],
             nextId := db.nextId + 1)
  }

  /** The update both `approveAbsence` and `rejectAbsence` issue: the request with the id
      takes the status, whatever it had; no signed-in user is required. */
  function SetAbsenceStatus(db: Db, requestId: Id, status: AbsenceStatus, ok: bool): (r: Db)
    ensures |r.absences| == |db.absences|
    ensures forall i | 0 <= i < |db.absences| ::
              r.absences[i] == if ok && db.absences[i].id == requestId then db.absences[i].(status := status) else db.absences[i]
    ensures r == db.(absences := r.absences)
  {
    if !ok then db
    else db.(absences := UpdateWhere(db.absences, (a: AbsenceRow) => a.id == requestId, (a: AbsenceRow) => a.(status := status)))
  }

  function ApproveAbsence(db: Db, requestId: Id, ok: bool): (r: Db)
    ensures |r.absences| == |db.absences| && r == db.(absences := r.absences)
    ensures forall i | 0 <= i < |db.absences| && ok && db.absences[i].id == requestId :: r.absences[i].status == Approved
    ensures forall i | 0 <= i < |db.absences| && !(ok && db.absences[i].id == requestId) :: r.absences[i] == db.absences[i]
  {
    SetAbsenceStatus(db, requestId, Approved, ok)
  }

  function RejectAbsence(db: Db, requestId: Id, ok: bool): (r: Db)
    ensures |r.absences| == |db.absences| && r == db.(absences := r.absences)
    ensures forall i | 0 <= i < |db.absences| && ok && db.absences[i].id == requestId :: r.absences[i].status == Rejected
    ensures forall i | 0 <= i < |db.absences| && !(ok && db.absences[i].id == requestId) :: r.absences[i] == db.absences[i]
  {
    SetAbsenceStatus(db, requestId, Rejected, ok)
  }

  /** Filing and deciding keep every id below the counter. */
  lemma AbsenceWritesKeepIds(db: Db, user: Option<Id>, startDate: string, endDate: string, reason: string,
                             now: Instant, requestId: Id, status: AbsenceStatus, ok: bool)
    requires IdsBelowNext(db)
    ensures IdsBelowNext(CreateAbsence(db, user, startDate, endDate, reason, now, ok))
    ensures IdsBelowNext(SetAbsenceStatus(db, requestId, status, ok))
  {
  }

  /** A decision can be reversed: the later of two accepted updates is what remains. */
  lemma LaterDecisionWins(db: Db, requestId: Id, first: AbsenceStatus, second: AbsenceStatus)
    ensures SetAbsenceStatus(SetAbsenceStatus(db, requestId, first, true), requestId, second, true)
            == SetAbsenceStatus(db, requestId, second, true)
  {
    var a := SetAbsenceStatus(SetAbsenceStatus(db, requestId, first, true), requestId, second, true);
    var b := SetAbsenceStatus(db, requestId, second, true);
    assert a.absences == b.absences;
  }

  // ----- reading back ---------------------------------------------------

  /** The username the join yields for a user id, `'Unbekannt'` when there is no profile
      with that id or its username is empty. */
  function RequesterName(profiles: seq<ProfileRow>, userId: Id): (name: string)
    ensures name != ""
    ensures (forall i | 0 <= i < |profiles| :: profiles[i].id != userId) ==> name == UnknownName
    ensures name != UnknownName ==> exists i | 0 <= i < |profiles| :: profiles[i].id == userId && profiles[i].username == name
    ensures forall i | 0 <= i < |profiles| && profiles[i].id == userId && (forall j | 0 <= j < i :: profiles[j].id != userId) ::
              name == if profiles[i].username == "" then UnknownName else profiles[i].username
  {
    FindFirst(profiles, (p: ProfileRow) => p.id == userId);
    match Find(profiles, (p: ProfileRow) => p.id == userId)
    case None => UnknownName
    case Some(p) => if p.username == "" then UnknownName else p.username
  }

  /** The name the absence join yields is the name the order screens look up for the same
      user in the user list built from the same profile rows. */
  lemma RequesterNameAgrees(profiles: seq<ProfileRow>, userId: Id)
    ensures RequesterName(profiles, userId) == UserName(Map(profiles, ProfileUser), userId)
  {
    var users := Map(profiles, ProfileUser);
    var f := FirstIndex(profiles, (p: ProfileRow) => p.id == userId);
    if f.Some? {
      var i := f.value;
      assert users[i].id == userId && users[i].username == profiles[i].username;
      assert forall j | 0 <= j < i :: users[j].id != userId;
    } else {
      assert forall j | 0 <= j < |users| :: users[j].id != userId;
    }
  }

  /** One fetched request: the row's columns, unchanged, and the joined name. */
  function ToRequest(profiles: seq<ProfileRow>, a: AbsenceRow): (r: AbsenceRequest)
    ensures AbsenceRow(r.id, r.userId, r.startDate, r.endDate, r.reason, r.status, r.requestedAt) == a
    ensures r.username != ""
  {
    AbsenceRequest(a.id, a.userId, RequesterName(profiles, a.userId), a.startDate, a.endDate, a.reason, a.status, a.requestedAt)
  }

  function NewestRequestFirst(a: AbsenceRow, b: AbsenceRow): bool
  {
    a.requestedAt >= b.requestedAt
  }

  /** `fetchAbsences`: every request, most recently requested first, with a non-empty name. */
  function FetchAbsences(db: Db): (r: seq<AbsenceRequest>)
    ensures |r| == |db.absences|
    ensures forall a | a in db.absences :: ToRequest(db.profiles, a) in r
    ensures forall x | x in r :: exists a | a in db.absences :: x == ToRequest(db.profiles, a)
    ensures forall i | 0 <= i < |r| :: r[i].username != ""
  {
    var sorted := SortBy(db.absences, NewestRequestFirst);
    MapPermutation(db.absences, sorted, (a: AbsenceRow) => ToRequest(db.profiles, a));
    Map(sorted, (a: AbsenceRow) => ToRequest(db.profiles, a))
  }

  lemma FetchAbsencesNewestFirst(db: Db)
    ensures forall i, j | 0 <= i < j < |FetchAbsences(db)| :: FetchAbsences(db)[i].requestedAt >= FetchAbsences(db)[j].requestedAt
  {
    SortBySorted(db.absences, NewestRequestFirst);
  }

  /** A request just filed is read back as a pending request of its author with its dates. */
  lemma CreatedAbsenceReadBack(db: Db, user: Id, startDate: string, endDate: string, reason: string, now: Instant)
    ensures var r := CreateAbsence(db, Some(user), startDate, endDate, reason, now, true);
            exists k | 0 <= k < |FetchAbsences(r)| ::
              var a := FetchAbsences(r)[k];
              && a.id == db.nextId && a.userId == user && a.status == Pending
              && a.startDate == startDate && a.endDate == endDate && a.reason == reason
  {
    var r := CreateAbsence(db, Some(user), startDate, endDate, reason, now, true);
    var row := AbsenceRow(db.nextId, user, startDate, endDate, reason, Pending, now);
    assert row in r.absences;
    var view := ToRequest(r.profiles, row);
    assert view in FetchAbsences(r);
  }
}
