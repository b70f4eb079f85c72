/** The user list of the backend variant (app/src/sections/UserManagement.tsx): the create
    form, the list without the signed-in admin, and the two-step delete. Creating and
    deleting are requests handed to the user hook, which is not part of this model. */
module UserAdmin {
  import opened Collections
  import opened Schema
  import opened Domain

  datatype UserForm = UserForm(username: string, password: string, role: Role)

  /** The form as first shown and after every create: empty, role `farmer`. */
  const BlankForm := UserForm("", "", Farmer)

  /** A user the form asks the hook to create. */
  datatype NewUser = NewUser(username: string, password: string, role: Role)

  /** `handleCreateUser`: a request with the fields exactly as typed, when both the name and
      the password are non-empty (white space counts as content); the form is then reset. */
  function CreateUser(f: UserForm): (r: (Option<NewUser>, UserForm))
    ensures r.0.Some? <==> f.username != "" && f.password != ""
    ensures r.0.Some? ==> r.0.value == NewUser(f.username, f.password, f.role) && r.1 == BlankForm
    ensures r.0.None? ==> r.1 == f
  {
    if f.username == "" || f.password == "" then (None, f)
    else (Some(NewUser(f.username, f.password, f.role)), BlankForm)
  }

  /** A name of blanks is accepted as it is. */
  lemma BlankNameAccepted()
    ensures CreateUser(UserForm(" ", "pw", Viewer)).0 == Some(NewUser(" ", "pw", Viewer))
  {
  }

  /** `filteredUsers`: everyone but the signed-in user. */
  function ListedUsers(users: seq<User>, current: User): (r: seq<User>)
    ensures forall u :: u in r <==> u in users && u.id != current.id
  {
    Filter(users, (u: User) => u.id != current.id)
  }

  /** `confirmDelete`: deletes the staged user, if any, and clears the stage. */
  function ConfirmDelete(staged: Option<User>): (r: (Option<Id>, Option<User>))
    ensures r.1.None?
    ensures r.0.Some? <==> staged.Some?
    ensures staged.Some? ==> r.0 == Some(staged.value.id)
  {
    match staged
    case None => (None, None)
    case Some(u) => (Some(u.id), None)
  }

  /** Only listed users can be staged, so the signed-in user never deletes themself here. */
  lemma NoSelfDelete(users: seq<User>, current: User, staged: User)
    requires staged in ListedUsers(users, current)
    ensures ConfirmDelete(Some(staged)).0 != Some(current.id)
  {
  }
}
