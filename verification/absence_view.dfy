/** The absence screen of the backend variant (app/src/sections/AbsenceRequests.tsx): the
    request form and its required fields, who sees the form and the decision buttons,
    and the two lists the screen filters out of the fetched requests. */
module AbsenceView {
  import opened Collections
  import opened Schema
  import opened Domain
  import opened AbsenceHooks

  datatype RequestForm = RequestForm(startDate: string, endDate: string, reason: string, shown: bool)

  /** The fields after a submit: empty, and the form folded away. */
  const ClosedForm := RequestForm("", "", "", false)

  /** The check `handleSubmit` starts with, which also disables the button: both dates and a
      reason. The dates are not compared with each other. */
  predicate CanRequest(f: RequestForm)
  {
    f.startDate != "" && f.endDate != "" && f.reason != ""
  }

  /** `handleSubmit`: nothing without the three fields; otherwise the request is filed (as far
      as `ok` says the database accepts it) and the form is cleared either way. */
  function Submit(db: Db, user: Option<Id>, f: RequestForm, now: Instant, ok: bool): (r: (Db, RequestForm))
    ensures !CanRequest(f) ==> r == (db, f)
    ensures CanRequest(f) ==> r.1 == ClosedForm
    ensures CanRequest(f) && user.Some? && ok ==>
              r.0.absences == db.absences + [AbsenceRow(db.nextId, user.value, f.startDate, f.endDate, f.reason, Pending, now)]
    ensures !CanRequest(f) || user.None? || !ok ==> r.0 == db
  {
    if !CanRequest(f) then (db, f)
    else (CreateAbsence(db, user, f.startDate, f.endDate, f.reason, now, ok), ClosedForm)
  }

  /** A request that ends before it starts is filed like any other. */
  lemma BackwardsRangeAccepted(db: Db, user: Id, now: Instant)
    ensures var f := RequestForm("2024-05-10", "2024-05-01", "Urlaub", true);
            |Submit(db, Some(user), f, now, true).0.absences| == |db.absences| + 1
  {
  }

  /** The form is hidden from viewers. */
  predicate FormShown(role: Role)
  {
    role != Viewer
  }

  /** The signed-in user's own requests. */
  function MyRequests(requests: seq<AbsenceRequest>, userId: Id): (r: seq<AbsenceRequest>)
    ensures forall a :: a in r <==> a in requests && a.userId == userId
  {
    Filter(requests, (a: AbsenceRequest) => a.userId == userId)
  }

  /** Requests still waiting for a decision, whoever filed them. */
  function PendingRequests(requests: seq<AbsenceRequest>): (r: seq<AbsenceRequest>)
    ensures forall a :: a in r <==> a in requests && a.status == Pending
  {
    Filter(requests, (a: AbsenceRequest) => a.status == Pending)
  }

  /** The approve and reject buttons: only admins see them, and only on pending requests. */
  predicate DecisionOffered(role: Role, requests: seq<AbsenceRequest>, a: AbsenceRequest)
  {
    role == Admin && a in PendingRequests(requests)
  }

  lemma DecisionOfferedIff(role: Role, requests: seq<AbsenceRequest>, a: AbsenceRequest)
    ensures DecisionOffered(role, requests, a) <==> role == Admin && a in requests && a.status == Pending
  {
  }

  /** Once a decision on a request is stored, the request leaves the pending list. */
  lemma DecidedLeavesPending(db: Db, requestId: Id, approve: bool)
    ensures var r := if approve then ApproveAbsence(db, requestId, true) else RejectAbsence(db, requestId, true);
            forall a | a in PendingRequests(FetchAbsences(r)) :: a.id != requestId
  {
    var r := if approve then ApproveAbsence(db, requestId, true) else RejectAbsence(db, requestId, true);
    forall a | a in PendingRequests(FetchAbsences(r))
      ensures a.id != requestId
    {
      var row :| row in r.absences && a == ToRequest(r.profiles, row);
      var i :| 0 <= i < |r.absences| && r.absences[i] == row;
    }
  }
}
