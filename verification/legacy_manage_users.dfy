/** The older account editor of `interface/src/forms/ManageUsersForm.js`.

    Its state, `compareUsers`, `createUser`, `uniqueUsername`,
    `noAdminConfigured`, `startEditingUser`, `cancelEditingUser`, the two
    field handlers and `onSubmit` behave as in the newer form, and the model
    reuses those definitions; for `onSubmit` this assumes the component is
    handed an `authenticationContex` prop whose `refresh` it calls. It differs in three ways:
    - the table and its buttons are replaced by the editor while a draft is
      open, so table actions are offered only without a draft;
    - a row's "Delete" button has no click handler, so it does nothing;
    - `doneEditingUser` reads `user.username` without checking that a draft
      is open: without one it throws as soon as the filter callback runs,
      and on an empty list, where the callback never runs, it would store a
      list holding `undefined`. */
module LegacyManageUsers {
  import opened Wrappers
  import opened Accounts
  import opened ManageUsers

  /** What the unguarded confirm does without a draft: throw the `TypeError`
      of reading `username` of `undefined`, or store `[undefined]`, which is
      not a list of accounts. */
  datatype Fault = UsernameOfUndefined | StoresUndefined

  /** `doneEditingUser` without the guard: with a draft, the same commit as
      the newer form; without one, a fault. */
  function ConfirmEdit(f: Form): (r: Result<Form, Fault>)
    ensures r.Failure? <==> f.edit.buffer.None?
    ensures r == Failure(UsernameOfUndefined) <==> f.edit.buffer.None? && |f.data.users| > 0
    ensures r.Success? ==>
              && r.value.edit.buffer.None?
              && r.value.edit.creating == f.edit.creating
              && r.value.data.jwtSecret == f.data.jwtSecret
              && r.value.data.users == CommitBuffer(f.data.users, f.edit.buffer.value)
  {
    match f.edit.buffer
    case None => Failure(if |f.data.users| > 0 then UsernameOfUndefined else StoresUndefined)
    case Some(draft) => Success(Form(f.data.(users := CommitBuffer(f.data.users, draft)), f.edit.(buffer := None)))
  }

  /** Which actions the page offers: the table (rows, "Add User", "Save")
      without a draft, the editor with one. */
  predicate Offered(f: Form, a: Action)
  {
    match a
    case AddUser => f.edit.buffer.None?
    case EditRow(u) => f.edit.buffer.None? && u in f.data.users
    case DeleteRow(u) => f.edit.buffer.None? && u in f.data.users
    case Save => f.edit.buffer.None?
    case _ => f.edit.buffer.Some?
  }

  /** One action of the older form. Only the editor's done changes the
      document; "Delete" does nothing; only "Save" calls out. */
  function LegacyStep(f: Form, a: Action): (t: Transition)
    requires Offered(f, a)
    ensures t.form.data.jwtSecret == f.data.jwtSecret
    ensures DistinctUsernames(f.data.users) ==> DistinctUsernames(t.form.data.users)
    ensures !a.FinishEdit? ==> t.form.data == f.data
    ensures a.DeleteRow? ==> t == Transition(f, [])
    ensures !a.Save? ==> t.effects == []
    ensures SaveThenRefresh(t.effects)
  {
    match a
    case DeleteRow(_) => Transition(f, [])
    case FinishEdit => Transition(ConfirmEdit(f).value, [])
    case _ => Step(f, a)
  }

  /** Every action the older form offers, other than the inert "Delete",
      is offered by the newer form too and has the same effect there. */
  lemma AgreesWithNewerForm(f: Form, a: Action)
    requires Offered(f, a) && !a.DeleteRow?
    ensures Enabled(f, a)
    ensures LegacyStep(f, a) == Step(f, a)
  {
  }

  /** Without a draft, "Save" is disabled exactly when no administrator is
      configured; otherwise it submits and then refreshes. */
  lemma LegacySaveGate(f: Form)
    requires f.edit.buffer.None?
    ensures LegacyStep(f, Save).effects == [] <==> forall i :: 0 <= i < |f.data.users| ==> !f.data.users[i].admin
    ensures LegacyStep(f, Save).effects != [] ==> LegacyStep(f, Save).effects == [SaveData(f.data), RefreshAuth]
    ensures LegacyStep(f, Save).form == f
  {
  }

  /** Every action of the sequence is offered when it is taken. */
  predicate LegacyValidRun(f: Form, acts: seq<Action>)
    decreases |acts|
  {
    |acts| == 0 || (Offered(f, acts[0]) && LegacyValidRun(LegacyStep(f, acts[0]).form, acts[1..]))
  }

  /** A session on the older form; the same guarantees as on the newer one. */
  function LegacyRun(f: Form, acts: seq<Action>): (t: Transition)
    requires LegacyValidRun(f, acts)
    ensures t.form.data.jwtSecret == f.data.jwtSecret
    ensures DistinctUsernames(f.data.users) ==> DistinctUsernames(t.form.data.users)
    ensures SaveThenRefresh(t.effects)
    decreases |acts|
  {
    if |acts| == 0 then Transition(f, [])
    else
      var first := LegacyStep(f, acts[0]);
      var rest := LegacyRun(first.form, acts[1..]);
      SaveThenRefreshAppend(first.effects, rest.effects);
      Transition(rest.form, first.effects + rest.effects)
  }

  /** With "Delete" inert, the stored document changes only when a draft is
      confirmed: any session without a confirm leaves it as it was. */
  lemma {:induction false} OnlyConfirmChangesData(f: Form, acts: seq<Action>)
    requires LegacyValidRun(f, acts)
    requires forall i :: 0 <= i < |acts| ==> !acts[i].FinishEdit?
    ensures LegacyRun(f, acts).form.data == f.data
    decreases |acts|
  {
    if |acts| > 0 {
      OnlyConfirmChangesData(LegacyStep(f, acts[0]).form, acts[1..]);
    }
  }

  /** While the editor is open the table is hidden: no row can be edited or
      deleted and nothing can be saved until the draft is confirmed or
      cancelled. */
  lemma TableHiddenWhileEditing(f: Form, a: Action)
    requires f.edit.buffer.Some?
    requires a.AddUser? || a.EditRow? || a.DeleteRow? || a.Save?
    ensures !Offered(f, a)
  {
  }
}
