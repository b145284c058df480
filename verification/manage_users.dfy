/** The account editor of `interface2/src/forms/ManageUsersForm.tsx`.

    The form is handed the settings document (`data`) and keeps its own
    state: an optional edit buffer (`user`) and a `creating` flag. The table
    of accounts, the "Add User", per-row "Edit"/"Delete" and "Save" buttons
    are always shown; the `UserForm` editor is shown beside them while the
    buffer is set. Every handler is a pure transformation of the document or
    of the state; `setState` merges, so a handler that only clears `user`
    leaves `creating` as it was. */
module ManageUsers {
  import opened Wrappers
  import opened JsStrings
  import opened Accounts
  import opened Ordering

  /** The component state: `creating` and the optional buffer `user`. */
  datatype EditState = EditState(creating: bool, buffer: Option<User>)

  /** The document the form was handed together with its own state. */
  datatype Form = Form(data: Settings, edit: EditState)

  /** Calls the form makes on its collaborators: `saveData` and the
      authentication context's `refresh`. */
  datatype Effect = SaveData(settings: Settings) | RefreshAuth

  /** The buffer fields fed by text inputs. */
  datatype TextField = UsernameField | PasswordField

  /** What the operator can do on the page. */
  datatype Action =
    | AddUser                                       // "Add User"
    | EditRow(user: User)                           // a row's "Edit"
    | DeleteRow(user: User)                         // a row's "Delete"
    | ChangeText(field: TextField, value: JsString)  // typing into the editor
    | ChangeAdmin(checked: bool)                    // the editor's admin checkbox
    | CancelEdit                                    // the editor's cancel
    | FinishEdit                                    // the editor's done
    | Save                                          // the "Save" submit button

  /** The state after an action and the calls it made, in order. */
  datatype Transition = Transition(form: Form, effects: seq<Effect>)

  /** The draft `createUser` opens: empty username and password, admin. */
  const NewUser: User := User([], [], true)

  /** `createUser`: open a new draft in creating mode, discarding any open one. */
  function CreateUser(e: EditState): (r: EditState)
    ensures r.creating
    ensures r.buffer.Some? && r.buffer.value.username == [] && r.buffer.value.password == []
    ensures r.buffer.value.admin
  {
    EditState(true, Some(NewUser))
  }

  /** `startEditingUser`: open the given account as the draft, not creating. */
  function StartEditingUser(e: EditState, user: User): (r: EditState)
    ensures !r.creating && r.buffer == Some(user)
  {
    EditState(false, Some(user))
  }

  /** `cancelEditingUser`: drop the draft; `creating` keeps its value. */
  function CancelEditingUser(e: EditState): (r: EditState)
    ensures r.buffer.None? && r.creating == e.creating
  {
    e.(buffer := None)
  }

  /** `uniqueUsername`: no stored account has this name. There is no
      exemption for the account being edited. */
  function UniqueUsername(f: Form, name: JsString): (r: bool)
    ensures r <==> forall i :: 0 <= i < |f.data.users| ==> f.data.users[i].username != name
  {
    FindUser(f.data.users, (u: User) => u.username == name).None?
  }

  /** `noAdminConfigured`: no stored account is an administrator. */
  function NoAdminConfigured(f: Form): (r: bool)
    ensures r <==> forall i :: 0 <= i < |f.data.users| ==> !f.data.users[i].admin
  {
    FindUser(f.data.users, (u: User) => u.admin).None?
  }

  /** `removeUser`: keep the accounts with another username, in their order
      and as often as they occurred, and the secret. */
  function RemoveUser(data: Settings, user: User): (r: Settings)
    ensures r.jwtSecret == data.jwtSecret
    ensures r.users == WithoutUsername(data.users, user.username)
    ensures forall u :: u in r.users <==> u in data.users && u.username != user.username
    ensures forall u :: multiset(r.users)[u] == if u.username == user.username then 0 else multiset(data.users)[u]
    ensures (forall i :: 0 <= i < |data.users| ==> data.users[i].username != user.username) ==> r == data
    ensures DistinctUsernames(data.users) ==> DistinctUsernames(r.users)
  {
    WithoutUsernameKeepsDistinct(data.users, user.username);
    WithoutUsernameCounts(data.users, user.username);
    data.(users := WithoutUsername(data.users, user.username))
  }

  /** Deleting the same account twice is deleting it once. */
  lemma RemoveUserIdempotent(data: Settings, user: User)
    ensures RemoveUser(RemoveUser(data, user), user) == RemoveUser(data, user)
  {
    WithoutUsernameIdempotent(data.users, user.username);
  }

  /** The list `doneEditingUser` stores: the accounts whose username differs
      from the draft's current one, followed by the draft. */
  function CommitBuffer(users: seq<User>, draft: User): (r: seq<User>)
    ensures |r| > 0 && r[|r| - 1] == draft
    ensures r[..|r| - 1] == WithoutUsername(users, draft.username)
    ensures forall u :: u in r <==> u == draft || (u in users && u.username != draft.username)
    ensures forall i :: 0 <= i < |r| - 1 ==> r[i].username != draft.username
    ensures DistinctUsernames(users) ==> DistinctUsernames(r)
  {
    var kept := WithoutUsername(users, draft.username);
    WithoutUsernameKeepsDistinct(users, draft.username);
    assert forall i :: 0 <= i < |kept| ==> kept[i] in kept;
    assert (kept + [draft])[..|kept|] == kept;
    kept + [draft]
  }

  /** `doneEditingUser`: with a draft open, store it keyed by its current
      username and close the editor; with none, do nothing. */
  function DoneEditingUser(f: Form): (r: Form)
    ensures f.edit.buffer.None? ==> r == f
    ensures f.edit.buffer.Some? ==>
              && r.edit.buffer.None?
              && r.edit.creating == f.edit.creating
              && r.data.jwtSecret == f.data.jwtSecret
              && r.data.users == CommitBuffer(f.data.users, f.edit.buffer.value)
  {
    match f.edit.buffer
    case None => f
    case Some(draft) =>
      Form(f.data.(users := CommitBuffer(f.data.users, draft)), f.edit.(buffer := None))
  }

  /** `handleUserValueChange`: overwrite one text field of the draft. */
  function HandleUserValueChange(e: EditState, name: TextField, value: JsString): (r: EditState)
    requires e.buffer.Some?
    ensures r.creating == e.creating && r.buffer.Some?
    ensures r.buffer.value.admin == e.buffer.value.admin
    ensures r.buffer.value.username == if name == UsernameField then value else e.buffer.value.username
    ensures r.buffer.value.password == if name == PasswordField then value else e.buffer.value.password
  {
    var draft := e.buffer.value;
    e.(buffer := Some(match name
                      case UsernameField => draft.(username := value)
                      case PasswordField => draft.(password := value)))
  }

  /** `handleUserCheckboxChange`: set the draft's admin flag to the box's state. */
  function HandleUserCheckboxChange(e: EditState, checked: bool): (r: EditState)
    requires e.buffer.Some?
    ensures r.creating == e.creating && r.buffer.Some?
    ensures r.buffer.value.admin == checked
    ensures r.buffer.value.username == e.buffer.value.username
    ensures r.buffer.value.password == e.buffer.value.password
  {
    e.(buffer := Some(e.buffer.value.(admin := checked)))
  }

  /** Every save is immediately followed by one refresh, and every saved
      document has an administrator. */
  predicate SaveThenRefresh(effects: seq<Effect>)
    decreases |effects|
  {
    || |effects| == 0
    || (&& |effects| >= 2
        && effects[0].SaveData?
        && (exists i :: 0 <= i < |effects[0].settings.users| && effects[0].settings.users[i].admin)
        && effects[1] == RefreshAuth
        && SaveThenRefresh(effects[2..]))
  }

  lemma {:induction false} SaveThenRefreshAppend(a: seq<Effect>, b: seq<Effect>)
    requires SaveThenRefresh(a) && SaveThenRefresh(b)
    ensures SaveThenRefresh(a + b)
    decreases |a|
  {
    if |a| == 0 {
      assert a + b == b;
    } else {
      SaveThenRefreshAppend(a[2..], b);
      assert (a + b)[0] == a[0] && (a + b)[1] == a[1] && (a + b)[2..] == a[2..] + b;
    }
  }

  /** Pressing "Save": the button is `disabled` while no administrator is
      configured; otherwise `onSubmit` saves, then refreshes. */
  function Submit(f: Form): (r: seq<Effect>)
    ensures r == [] <==> NoAdminConfigured(f)
    ensures r != [] ==> |r| == 2 && r[0] == SaveData(f.data) && r[1] == RefreshAuth
    ensures SaveThenRefresh(r)
  {
    if NoAdminConfigured(f) then [] else [SaveData(f.data), RefreshAuth]
  }

  /** The table body: `data.users.sort(compareUsers)`. */
  function DisplayedUsers(f: Form): (r: seq<User>)
    ensures SortedByName(r)
    ensures multiset(r) == multiset(f.data.users)
  {
    SortUsers(f.data.users)
  }

  /** Which actions the page offers: rows exist for stored accounts only,
      and the editor (with its fields, cancel and done) only while a draft
      is open. */
  predicate Enabled(f: Form, a: Action)
  {
    match a
    case EditRow(u) => u in f.data.users
    case DeleteRow(u) => u in f.data.users
    case ChangeText(_, _) => f.edit.buffer.Some?
    case ChangeAdmin(_) => f.edit.buffer.Some?
    case CancelEdit => f.edit.buffer.Some?
    case FinishEdit => f.edit.buffer.Some?
    case _ => true
  }

  /** One action. Only "Delete" and the editor's done change the document;
      only "Save" calls out. */
  function Step(f: Form, a: Action): (t: Transition)
    requires Enabled(f, a)
    ensures t.form.data.jwtSecret == f.data.jwtSecret
    ensures DistinctUsernames(f.data.users) ==> DistinctUsernames(t.form.data.users)
    ensures !a.FinishEdit? && !a.DeleteRow? ==> t.form.data == f.data
    ensures !a.Save? ==> t.effects == []
    ensures SaveThenRefresh(t.effects)
  {
    match a
    case AddUser => Transition(f.(edit := CreateUser(f.edit)), [])
    case EditRow(u) => Transition(f.(edit := StartEditingUser(f.edit, u)), [])
    case DeleteRow(u) => Transition(f.(data := RemoveUser(f.data, u)), [])
    case ChangeText(name, value) => Transition(f.(edit := HandleUserValueChange(f.edit, name, value)), [])
    case ChangeAdmin(checked) => Transition(f.(edit := HandleUserCheckboxChange(f.edit, checked)), [])
    case CancelEdit => Transition(f.(edit := CancelEditingUser(f.edit)), [])
    case FinishEdit => Transition(DoneEditingUser(f), [])
    case Save => Transition(f, Submit(f))
  }

  /** Every action of the sequence is offered when it is taken. */
  predicate ValidRun(f: Form, acts: seq<Action>)
    decreases |acts|
  {
    |acts| == 0 || (Enabled(f, acts[0]) && ValidRun(Step(f, acts[0]).form, acts[1..]))
  }

  /** A session: the actions in order, with all the calls they made. Whatever
      the operator does, the secret is kept, distinct usernames stay
      distinct, and each save of a document with an administrator is
      followed by exactly one refresh. */
  function Run(f: Form, acts: seq<Action>): (t: Transition)
    requires ValidRun(f, acts)
    ensures t.form.data.jwtSecret == f.data.jwtSecret
    ensures DistinctUsernames(f.data.users) ==> DistinctUsernames(t.form.data.users)
    ensures SaveThenRefresh(t.effects)
    decreases |acts|
  {
    if |acts| == 0 then Transition(f, [])
    else
      var first := Step(f, acts[0]);
      var rest := Run(first.form, acts[1..]);
      SaveThenRefreshAppend(first.effects, rest.effects);
      Transition(rest.form, first.effects + rest.effects)
  }

  /** Running one action and then the rest. */
  lemma RunCons(f: Form, a: Action, acts: seq<Action>)
    requires Enabled(f, a) && ValidRun(Step(f, a).form, acts)
    ensures ValidRun(f, [a] + acts)
    ensures Run(f, [a] + acts)
            == Transition(Run(Step(f, a).form, acts).form, Step(f, a).effects + Run(Step(f, a).form, acts).effects)
  {
  }

  /** The stored document changes only through "Delete" and the editor's
      done: any session without them leaves it exactly as it was. */
  lemma {:induction false} DataChangesOnlyOnCommit(f: Form, acts: seq<Action>)
    requires ValidRun(f, acts)
    requires forall i :: 0 <= i < |acts| ==> !acts[i].FinishEdit? && !acts[i].DeleteRow?
    ensures Run(f, acts).form.data == f.data
    decreases |acts|
  {
    if |acts| > 0 {
      DataChangesOnlyOnCommit(Step(f, acts[0]).form, acts[1..]);
    }
  }

  /** With a draft open, changing any fields and cancelling leaves the
      stored document as it was, closes the draft and calls nothing. */
  lemma {:induction false} FieldEditsThenCancel(g: Form, edits: seq<Action>)
    requires g.edit.buffer.Some?
    requires forall i :: 0 <= i < |edits| ==> edits[i].ChangeText? || edits[i].ChangeAdmin?
    ensures ValidRun(g, edits + [CancelEdit])
    ensures Run(g, edits + [CancelEdit]).form.data == g.data
    ensures Run(g, edits + [CancelEdit]).form.edit.buffer.None?
    ensures Run(g, edits + [CancelEdit]).effects == []
    decreases |edits|
  {
    if |edits| == 0 {
      assert edits + [CancelEdit] == [CancelEdit] + [];
      RunCons(g, CancelEdit, []);
    } else {
      var h := Step(g, edits[0]).form;
      FieldEditsThenCancel(h, edits[1..]);
      assert edits + [CancelEdit] == [edits[0]] + (edits[1..] + [CancelEdit]);
      RunCons(g, edits[0], edits[1..] + [CancelEdit]);
    }
  }

  /** Opening the editor ("Add User" or a row's "Edit"), changing any fields
      and cancelling leaves the stored document exactly as it was, closes
      the editor and calls nothing. */
  lemma CancelDiscardsSession(f: Form, start: Action, edits: seq<Action>)
    requires start.AddUser? || (start.EditRow? && start.user in f.data.users)
    requires forall i :: 0 <= i < |edits| ==> edits[i].ChangeText? || edits[i].ChangeAdmin?
    ensures ValidRun(f, [start] + edits + [CancelEdit])
    ensures Run(f, [start] + edits + [CancelEdit]).form.data == f.data
    ensures Run(f, [start] + edits + [CancelEdit]).form.edit.buffer.None?
    ensures Run(f, [start] + edits + [CancelEdit]).effects == []
  {
    var g := Step(f, start).form;
    FieldEditsThenCancel(g, edits);
    assert [start] + edits + [CancelEdit] == [start] + (edits + [CancelEdit]);
    RunCons(f, start, edits + [CancelEdit]);
  }

  /** The draft always collides with its own stored account: while an
      account is edited unchanged, `uniqueUsername` reports its name taken. */
  lemma EditedNameNeverUnique(f: Form, u: User)
    requires u in f.data.users
    ensures !UniqueUsername(Step(f, EditRow(u)).form, u.username)
  {
  }

  /** With a draft open, typing a name and a password, setting the admin
      box and confirming commits exactly the typed account: the three
      handlers leave nothing of the old draft behind. */
  lemma FillAndConfirm(g: Form, name: JsString, password: JsString, admin: bool)
    requires g.edit.buffer.Some?
    ensures ValidRun(g, [ChangeText(UsernameField, name), ChangeText(PasswordField, password),
                         ChangeAdmin(admin), FinishEdit])
    ensures var t := Run(g, [ChangeText(UsernameField, name), ChangeText(PasswordField, password),
                             ChangeAdmin(admin), FinishEdit]);
            && t.effects == []
            && t.form.edit == EditState(g.edit.creating, None)
            && t.form.data == g.data.(users := CommitBuffer(g.data.users, User(name, password, admin)))
  {
    var g1 := Step(g, ChangeText(UsernameField, name)).form;
    var g2 := Step(g1, ChangeText(PasswordField, password)).form;
    var g3 := Step(g2, ChangeAdmin(admin)).form;
    assert g3.edit.buffer == Some(User(name, password, admin));
    RunCons(g3, FinishEdit, []);
    RunCons(g2, ChangeAdmin(admin), [FinishEdit]);
    RunCons(g1, ChangeText(PasswordField, password), [ChangeAdmin(admin), FinishEdit]);
    RunCons(g, ChangeText(UsernameField, name), [ChangeText(PasswordField, password), ChangeAdmin(admin), FinishEdit]);
  }

  /** Adding an account: after "Add User", typing a name and a password,
      setting the admin box and confirming, the list is the old accounts
      with other names followed by exactly the typed account; with a fresh
      name, that is the old list with the account appended. */
  lemma NewAccountSession(f: Form, name: JsString, password: JsString, admin: bool)
    ensures ValidRun(f, [AddUser, ChangeText(UsernameField, name), ChangeText(PasswordField, password),
                         ChangeAdmin(admin), FinishEdit])
    ensures var t := Run(f, [AddUser, ChangeText(UsernameField, name), ChangeText(PasswordField, password),
                             ChangeAdmin(admin), FinishEdit]);
            && t.effects == []
            && t.form.edit == EditState(true, None)
            && t.form.data.users == WithoutUsername(f.data.users, name) + [User(name, password, admin)]
            && (UniqueUsername(f, name) ==> t.form.data.users == f.data.users + [User(name, password, admin)])
  {
    var fill := [ChangeText(UsernameField, name), ChangeText(PasswordField, password), ChangeAdmin(admin), FinishEdit];
    var g := Step(f, AddUser).form;
    FillAndConfirm(g, name, password, admin);
    RunCons(f, AddUser, fill);
    assert [AddUser] + fill == [AddUser, ChangeText(UsernameField, name), ChangeText(PasswordField, password),
                                ChangeAdmin(admin), FinishEdit];
  }

  /** Renaming while editing: the draft is stored under its new name and the
      account it was opened from stays, so the old account is kept next to
      the renamed one. */
  lemma RenameKeepsOriginal(f: Form, u: User, name: JsString)
    requires u in f.data.users && name != u.username
    ensures ValidRun(f, [EditRow(u), ChangeText(UsernameField, name), FinishEdit])
    ensures var users := Run(f, [EditRow(u), ChangeText(UsernameField, name), FinishEdit]).form.data.users;
            && u in users
            && u.(username := name) in users
  {
    var f1 := Step(f, EditRow(u)).form;
    var f2 := Step(f1, ChangeText(UsernameField, name)).form;
    RunCons(f2, FinishEdit, []);
    RunCons(f1, ChangeText(UsernameField, name), [FinishEdit]);
    RunCons(f, EditRow(u), [ChangeText(UsernameField, name), FinishEdit]);
  }

  /** With distinct usernames, confirming an account opened and left
      unchanged moves it to the end of the stored list, but the displayed
      table is the same. */
  lemma UnchangedEditKeepsTable(f: Form, u: User)
    requires DistinctUsernames(f.data.users) && u in f.data.users
    ensures ValidRun(f, [EditRow(u), FinishEdit])
    ensures Run(f, [EditRow(u), FinishEdit]).form.data.users == WithoutUsername(f.data.users, u.username) + [u]
    ensures multiset(Run(f, [EditRow(u), FinishEdit]).form.data.users) == multiset(f.data.users)
    ensures DisplayedUsers(Run(f, [EditRow(u), FinishEdit]).form) == DisplayedUsers(f)
  {
    var f1 := Step(f, EditRow(u)).form;
    var g := Step(f1, FinishEdit).form;
    RunCons(f1, FinishEdit, []);
    RunCons(f, EditRow(u), [FinishEdit]);
    WithoutUsernameRemovesOne(f.data.users, u);
    assert multiset(g.data.users) == multiset(f.data.users);
    DisplayIsCanonical(f, DisplayedUsers(g));
  }

  /** With distinct usernames, the table is the only sorted arrangement of
      the stored accounts, so it does not depend on their stored order or on
      how the browser sorts. */
  lemma DisplayIsCanonical(f: Form, shown: seq<User>)
    requires DistinctUsernames(f.data.users)
    requires SortedByName(shown) && multiset(shown) == multiset(f.data.users)
    ensures shown == DisplayedUsers(f)
  {
    PermutationKeepsDistinct(f.data.users, shown);
    SortedPermutationUnique(shown, DisplayedUsers(f));
  }

  /** "Delete" is not blocked for the last administrator; once it is gone,
      "Save" does nothing. */
  lemma DeletingLastAdminBlocksSave(f: Form, u: User)
    requires u in f.data.users && u.admin
    requires forall i :: 0 <= i < |f.data.users| && f.data.users[i].admin ==> f.data.users[i].username == u.username
    ensures ValidRun(f, [DeleteRow(u), Save])
    ensures Run(f, [DeleteRow(u), Save]).effects == []
  {
    var f1 := Step(f, DeleteRow(u)).form;
    forall i | 0 <= i < |f1.data.users| ensures !f1.data.users[i].admin {
      assert f1.data.users[i] in f1.data.users;
      var k :| 0 <= k < |f.data.users| && f.data.users[k] == f1.data.users[i];
    }
    RunCons(f1, Save, []);
    RunCons(f, DeleteRow(u), [Save]);
  }
}
