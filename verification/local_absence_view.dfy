/** The absence screen of the local-only variant (darknova-app/src/sections/AbsenceRequests.tsx):
    the request form, the member's and the pending lists, the decision buttons and the
    order all three lists are shown in. */
module LocalAbsenceView {
  import opened Collections
  import opened Schema
  import opened Domain
  import LocalApp

  datatype RequestForm = RequestForm(startDate: string, endDate: string, reason: string)

  const BlankForm := RequestForm("", "", "")

  /** `handleSubmit` needs both dates; the reason is optional. */
  predicate CanRequest(f: RequestForm)
  {
    f.startDate != "" && f.endDate != ""
  }

  /** `handleSubmit`: the request is filed under the signed-in user's name, an empty reason
      as none, and the fields cleared. `id` and `now` stand for what `addAbsence` takes
      from the clock. */
  function Submit(st: LocalApp.AppState, user: LocalApp.User, f: RequestForm, id: string, now: Instant): (r: (LocalApp.AppState, RequestForm))
    ensures !CanRequest(f) ==> r == (st, f)
    ensures CanRequest(f) ==>
              && r.1 == BlankForm
              && |r.0.absences| == |st.absences| + 1 && r.0.absences[..|st.absences|] == st.absences
              && r.0.absences[|st.absences|] ==
                   LocalApp.Absence(id, user.username, f.startDate, f.endDate,
                                    if f.reason == "" then None else Some(f.reason), Pending, now)
    ensures r.0.users == st.users && r.0.orders == st.orders
  {
    if !CanRequest(f) then (st, f)
    else
      var d := LocalApp.AbsenceDraft(user.username, f.startDate, f.endDate, if f.reason == "" then None else Some(f.reason));
      (LocalApp.AddAbsence(st, d, id, now), BlankForm)
  }

  /** A request filed here appears in the member's own list and in the pending list. */
  lemma SubmittedIsMineAndPending(st: LocalApp.AppState, user: LocalApp.User, f: RequestForm, id: string, now: Instant)
    requires CanRequest(f)
    ensures var r := Submit(st, user, f, id, now).0;
            && r.absences[|st.absences|] in MyAbsences(r.absences, user.username)
            && r.absences[|st.absences|] in PendingAbsences(r.absences)
  {
  }

  /** The member's requests, matched by username. */
  function MyAbsences(absences: seq<LocalApp.Absence>, username: string): (r: seq<LocalApp.Absence>)
    ensures forall a :: a in r <==> a in absences && a.username == username
  {
    Filter(absences, (a: LocalApp.Absence) => a.username == username)
  }

  function PendingAbsences(absences: seq<LocalApp.Absence>): (r: seq<LocalApp.Absence>)
    ensures forall a :: a in r <==> a in absences && a.status == Pending
  {
    Filter(absences, (a: LocalApp.Absence) => a.status == Pending)
  }

  /** The approve and reject buttons: on a card with actions, and only while pending. The
      pending tab, the only one with actions, is there for admins only. */
  predicate ActionsShown(showActions: bool, a: LocalApp.Absence)
  {
    showActions && a.status == Pending
  }

  /** A decided request has no buttons any more, whichever decision was taken. */
  lemma DecidedHasNoActions(st: LocalApp.AppState, id: string, d: LocalApp.Decision, i: nat)
    requires i < |st.absences| && st.absences[i].id == id
    ensures !ActionsShown(true, LocalApp.UpdateAbsence(st, id, d).absences[i])
    ensures LocalApp.UpdateAbsence(st, id, d).absences[i] !in PendingAbsences(LocalApp.UpdateAbsence(st, id, d).absences)
  {
  }

  /** The order every tab lists requests in: most recently requested first. */
  function NewestFirst(absences: seq<LocalApp.Absence>): (r: seq<LocalApp.Absence>)
    ensures multiset(r) == multiset(absences)
  {
    SortBy(absences, (a: LocalApp.Absence, b: LocalApp.Absence) => a.requestedAt >= b.requestedAt)
  }

  lemma NewestFirstSorted(absences: seq<LocalApp.Absence>)
    ensures var r := NewestFirst(absences);
            forall i, j | 0 <= i < j < |r| :: r[i].requestedAt >= r[j].requestedAt
  {
    SortBySorted(absences, (a: LocalApp.Absence, b: LocalApp.Absence) => a.requestedAt >= b.requestedAt);
  }
}
