/** The user list of the local-only variant (darknova-app/src/sections/UserManagement.tsx):
    the create form with its trimming, the list's order, and who can be deleted. */
module LocalUserAdmin {
  import opened Collections
  import opened Text
  import opened Schema
  import LocalApp

  datatype UserForm = UserForm(username: string, password: string, role: Role)

  const BlankForm := UserForm("", "", Farmer)

  /** `handleSubmit`: refuses a name or password that is empty after trimming; otherwise
      adds the trimmed name and password, with the signed-in user's name as creator, and
      resets the form. `id` and `now` stand for what `addUser` takes from the clock. */
  function Submit(st: LocalApp.AppState, current: LocalApp.User, f: UserForm, id: string, now: Instant): (r: (LocalApp.AppState, UserForm))
    ensures Trim(f.username) == "" || Trim(f.password) == "" ==> r == (st, f)
    ensures Trim(f.username) != "" && Trim(f.password) != "" ==>
              && r.1 == BlankForm
              && |r.0.users| == |st.users| + 1 && r.0.users[..|st.users|] == st.users
              && r.0.users[|st.users|] ==
                   LocalApp.User(id, Trim(f.username), Trim(f.password), f.role, now, Some(current.username))
    ensures r.0.orders == st.orders && r.0.absences == st.absences
  {
    if Trim(f.username) == "" || Trim(f.password) == "" then (st, f)
    else
      var nu := LocalApp.NewUser(Trim(f.username), Trim(f.password), f.role, Some(current.username));
      (LocalApp.AddUser(st, nu, id, now), BlankForm)
  }

  /** A name of white space only is refused, and a stored name has no white space at its ends. */
  lemma SubmitTrims(st: LocalApp.AppState, current: LocalApp.User, f: UserForm, id: string, now: Instant)
    ensures (forall k | 0 <= k < |f.username| :: IsSpace(f.username[k])) ==> Submit(st, current, f, id, now).0 == st
    ensures var r := Submit(st, current, f, id, now).0;
            |r.users| > |st.users| ==> Trim(r.users[|st.users|].username) == r.users[|st.users|].username
  {
    TrimEmptyIff(f.username);
    TrimIdempotent(f.username);
  }

  /** Admins first, then farmers, then viewers. */
  function RoleRank(r: Role): nat
  {
    match r
    case Admin => 0
    case Farmer => 1
    case Viewer => 2
  }

  /** The list's order: by role rank, then by username (`localeCompare`, taken here as
      code-unit order). */
  predicate UserLe(a: LocalApp.User, b: LocalApp.User)
  {
    RoleRank(a.role) < RoleRank(b.role) || (RoleRank(a.role) == RoleRank(b.role) && StrLe(a.username, b.username))
  }

  lemma UserLeTotalPreorder()
    ensures TotalPreorder(UserLe)
  {
    forall a: LocalApp.User, b: LocalApp.User
      ensures UserLe(a, b) || UserLe(b, a)
    {
      StrLeTotal(a.username, b.username);
    }
    forall a: LocalApp.User, b: LocalApp.User, c: LocalApp.User | UserLe(a, b) && UserLe(b, c)
      ensures UserLe(a, c)
    {
      if RoleRank(a.role) == RoleRank(b.role) == RoleRank(c.role) {
        StrLeTransitive(a.username, b.username, c.username);
      }
    }
  }

  /** `sortedUsers`: the users, rearranged. */
  function SortedUsers(users: seq<LocalApp.User>): (r: seq<LocalApp.User>)
    ensures multiset(r) == multiset(users)
  {
    SortBy(users, UserLe)
  }

  /** In the list, a lower rank never follows a higher one, and within a rank names ascend. */
  lemma SortedUsersOrdered(users: seq<LocalApp.User>)
    ensures var r := SortedUsers(users);
            forall i, j | 0 <= i < j < |r| ::
              RoleRank(r[i].role) <= RoleRank(r[j].role)
              && (r[i].role == r[j].role ==> StrLe(r[i].username, r[j].username))
  {
    UserLeTotalPreorder();
    SortBySorted(users, UserLe);
  }

  /** The delete button: shown for every user but the signed-in one. */
  predicate DeleteOffered(u: LocalApp.User, current: LocalApp.User)
  {
    u.id != current.id
  }

  /** A delete offered here never removes the signed-in user. */
  lemma DeleteKeepsCurrent(st: LocalApp.AppState, u: LocalApp.User, current: LocalApp.User)
    requires DeleteOffered(u, current) && current in st.users
    ensures current in LocalApp.DeleteUser(st, u.id).users
  {
  }
}
