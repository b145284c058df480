# Account editor of the security settings page

This project models, in Dafny, the account-management form of the device's
web interface: the component that lists the `User` accounts (username,
password, admin flag) of the security settings document, lets the operator
add, edit and delete accounts in a local copy, and saves the whole document
(accounts plus the opaque `jwt_secret`) back in one piece.

The form exists twice in the repository and both are modelled:

- `interface2/src/forms/ManageUsersForm.tsx`, the newer form (module
  `ManageUsers`): table and editor are shown together, every row has a
  working "Delete" button, and `doneEditingUser` checks that a draft is open.
- `interface/src/forms/ManageUsersForm.js`, the older form (module
  `LegacyManageUsers`): the editor replaces the table while a draft is open,
  "Delete" has no click handler, and `doneEditingUser` has no guard. Where its
  handlers are identical to the newer form's, the model reuses those
  definitions and proves the two forms take the same steps
  (`LegacyManageUsers.AgreesWithNewerForm`).

Supporting modules: `Wrappers` (`Option` for `undefined`, `Result` for a
thrown exception), `JsStrings` (JavaScript strings as UTF-16 code units and
the `<` operator on them), `Accounts` (the `User` and settings types from
`interface2/src/containers/SecuritySettings.tsx`, `find`, `filter` by
username, distinct usernames) and `Ordering` (`compareUsers` and the sorted
table).

The form is a state machine over `Form(data, edit)`: `data` is the settings
document the form was handed, `edit` is the component state (`creating` and
the optional draft `user`). Each button or input is an `Action`; `Step`
gives the next state and the calls made to collaborators (`SaveData`, then
`RefreshAuth`), and `Run` runs a sequence of actions. The invariants are
stated over any sequence of actions: the secret is never touched, distinct
usernames stay distinct, and every save is of a document with an
administrator and is followed by exactly one refresh.

Behaviour of the code worth knowing when reading the model:

- Confirming an edit removes the stored accounts whose username equals the
  draft's *current* username, then appends the draft. Renaming `alice` to
  `carol` during an edit therefore keeps `alice` and adds `carol`
  (`ManageUsers.RenameKeepsOriginal`).
- `uniqueUsername` takes no "excluding" name: an account being edited always
  collides with its own stored copy (`ManageUsers.EditedNameNeverUnique`).
- `compareUsers` is a total *preorder* on accounts: two accounts with the
  same username compare equal even when their other fields differ.
- `setState` merges, so cancelling or confirming clears only the draft and
  leaves `creating` as it was.

## Model

| member | source | states |
|---|---|---|
| `JsStrings.Less` | interface2/src/forms/ManageUsersForm.tsx:32-37 | The definition of JavaScript's `<` on strings, compared code unit by code unit; its meaning is stated by `JsStrings.LessIsFirstDifference` and the order lemmas below. |
| `JsStrings.LessIsFirstDifference` | interface2/src/forms/ManageUsersForm.tsx:32-37 | The string `<` used by `compareUsers` holds exactly when the first string is a proper prefix of the second or has the smaller code unit at the first position where they differ. |
| `JsStrings.LessIrreflexive` | interface2/src/forms/ManageUsersForm.tsx:32-34 | No username is below itself. |
| `JsStrings.LessAsymmetric` | interface2/src/forms/ManageUsersForm.tsx:32-37 | `a < b` and `b < a` never both hold, so `compareUsers` cannot return both -1 and 1 for one pair. |
| `JsStrings.LessTransitive` | interface2/src/forms/ManageUsersForm.tsx:32-34 | `a < b` and `b < c` give `a < c`. |
| `JsStrings.LessTrichotomous` | interface2/src/forms/ManageUsersForm.tsx:32-38 | Two usernames are equal or one is below the other, so the final `return 0` is reached only for equal usernames. |
| `Accounts.FindUser` | interface2/src/forms/ManageUsersForm.tsx:67 | `find` yields `undefined` exactly when no element satisfies the predicate, and otherwise the first element of the list that satisfies it: every element before it fails the predicate. |
| `Accounts.WithoutUsername` | interface2/src/forms/ManageUsersForm.tsx:76 | The filter keeps exactly the users whose username differs from the given one, and returns the list unchanged when no user has that name. |
| `Accounts.WithoutUsernameCounts` | interface2/src/forms/ManageUsersForm.tsx:76 | Every user with another username is kept as many times as it occurred; none with that username survive. |
| `Accounts.WithoutUsernameAppend` | interface2/src/forms/ManageUsersForm.tsx:76 | Filtering distributes over concatenation, so the kept users stay in their original order. |
| `Accounts.WithoutUsernameIdempotent` | interface2/src/forms/ManageUsersForm.tsx:74-78 | Removing a username twice is the same as removing it once. |
| `Accounts.WithoutUsernameKeepsDistinct` | interface2/src/forms/ManageUsersForm.tsx:97 | Filtering a list with distinct usernames leaves them distinct. |
| `Accounts.WithoutUsernameRemovesOne` | interface2/src/forms/ManageUsersForm.tsx:97-98 | With distinct usernames, filtering out a stored account's name removes exactly that one account. |
| `Ordering.CompareUsers` | interface2/src/forms/ManageUsersForm.tsx:31-39 | `compareUsers` returns -1 exactly when the first username is below the second under JavaScript's `<`, 1 exactly when it is above, and 0 exactly when the two are equal, so the table is in ascending code-unit order. |
| `Ordering.CompareUsersAntisymmetric` | interface/src/forms/ManageUsersForm.js:47-55 | Swapping the two accounts negates the result. |
| `Ordering.CompareUsersTransitive` | interface/src/forms/ManageUsersForm.js:47-55 | "Compares at most" is transitive. |
| `Ordering.CompareUsersTotal` | interface2/src/forms/ManageUsersForm.tsx:31-39 | Any two accounts are comparable one way or the other; with transitivity, a total preorder by username. |
| `Ordering.Insert` | interface2/src/forms/ManageUsersForm.tsx:134 | Inserting an account into a sorted list gives a sorted list holding exactly the old elements plus the account. |
| `Ordering.SortUsers` | interface2/src/forms/ManageUsersForm.tsx:134 | `users.sort(compareUsers)` yields a permutation of the accounts that is non-decreasing under `compareUsers`. |
| `Ordering.SortedPermutationUnique` | interface/src/forms/ManageUsersForm.js:167 | With distinct usernames, two sorted permutations of the same accounts are identical. |
| `ManageUsers.CreateUser` | interface2/src/forms/ManageUsersForm.tsx:55-64 | "Add User" opens a draft with empty username and password and the admin flag set, in creating mode, whatever draft was open before. |
| `ManageUsers.StartEditingUser` | interface2/src/forms/ManageUsersForm.tsx:80-85 | "Edit" opens the given account itself as the draft, not in creating mode. |
| `ManageUsers.CancelEditingUser` | interface2/src/forms/ManageUsersForm.tsx:87-91 | Cancelling closes the draft and leaves the `creating` flag as it was. |
| `ManageUsers.UniqueUsername` | interface2/src/forms/ManageUsersForm.tsx:66-68 | True exactly when no stored account has the given username (identical at interface/src/forms/ManageUsersForm.js:75-77). |
| `ManageUsers.NoAdminConfigured` | interface2/src/forms/ManageUsersForm.tsx:70-72 | True exactly when no stored account is an administrator (identical at interface/src/forms/ManageUsersForm.js:79-81). |
| `ManageUsers.RemoveUser` | interface2/src/forms/ManageUsersForm.tsx:74-78 | Deleting is the username filter: it keeps the accounts with another username in their original order and multiplicity, drops every account with that username, keeps the secret, changes nothing when the username is absent, and keeps usernames distinct. |
| `ManageUsers.RemoveUserIdempotent` | interface2/src/forms/ManageUsersForm.tsx:74-78 | Deleting the same account twice leaves the same document as deleting it once. |
| `ManageUsers.CommitBuffer` | interface2/src/forms/ManageUsersForm.tsx:97-98 | The committed list is the stored list filtered by the draft's username, in its original order, followed by the draft; it holds otherwise exactly the stored accounts with another username, has no other account with the draft's username, and keeps usernames distinct. |
| `ManageUsers.DoneEditingUser` | interface2/src/forms/ManageUsersForm.tsx:93-104 | With no draft nothing changes; with one, the draft is committed, the secret kept, the draft closed and `creating` left alone. |
| `ManageUsers.HandleUserValueChange` | interface2/src/forms/ManageUsersForm.tsx:106-108 | Typing overwrites only the named text field of the draft; the other fields and `creating` are unchanged. |
| `ManageUsers.HandleUserCheckboxChange` | interface2/src/forms/ManageUsersForm.tsx:110-112 | The checkbox sets only the draft's admin flag to its checked state. |
| `ManageUsers.Submit` | interface2/src/forms/ManageUsersForm.tsx:114-117 | "Save" makes no call exactly when no administrator is configured (the button is disabled, line 174); otherwise it saves the current document and then refreshes, once each. |
| `ManageUsers.DisplayedUsers` | interface2/src/forms/ManageUsersForm.tsx:134 | The table shows a permutation of the stored accounts sorted by `compareUsers`. |
| `ManageUsers.DisplayIsCanonical` | interface2/src/forms/ManageUsersForm.tsx:134-135 | With distinct usernames, any sorted arrangement of the stored accounts is the displayed table, whatever sort the browser uses. |
| `ManageUsers.Enabled` | interface2/src/forms/ManageUsersForm.tsx:145-190 | The definition of which handlers the newer form's page wires: row buttons only for stored accounts, the editor's inputs and buttons only while a draft is open, "Add User" and "Save" always (a press of the disabled "Save" makes no call, see `ManageUsers.Submit`); `ManageUsers.Step` and `ManageUsers.Run` are stated over it. |
| `ManageUsers.Step` | interface2/src/forms/ManageUsersForm.tsx:145-190 | Each action keeps the secret and distinct usernames; only "Delete" and confirming change the document; only "Save" calls out, and then as save followed by refresh. |
| `ManageUsers.Run` | interface2/src/forms/ManageUsersForm.tsx:49-117 | Over any sequence of offered actions the secret is kept, distinct usernames stay distinct, and every save is of a document with an administrator and is followed by exactly one refresh. |
| `ManageUsers.DataChangesOnlyOnCommit` | interface2/src/forms/ManageUsersForm.tsx:74-104 | A session with no "Delete" and no confirm leaves the stored document exactly as it was. |
| `ManageUsers.FieldEditsThenCancel` | interface2/src/forms/ManageUsersForm.tsx:87-112 | With a draft open, any number of field changes followed by cancel leave the document as it was, close the draft and call nothing. |
| `ManageUsers.CancelDiscardsSession` | interface2/src/forms/ManageUsersForm.tsx:87-91 | Opening a draft, changing any fields and cancelling leaves the document exactly as it was and closes the draft. |
| `ManageUsers.EditedNameNeverUnique` | interface2/src/forms/ManageUsersForm.tsx:80-85 | After "Edit" on a stored account, `uniqueUsername` reports that account's own name as taken. |
| `ManageUsers.FillAndConfirm` | interface2/src/forms/ManageUsersForm.tsx:93-112 | Typing a name and a password, setting the admin box and confirming commits exactly that account, whatever the draft held before. |
| `ManageUsers.NewAccountSession` | interface2/src/forms/ManageUsersForm.tsx:55-112 | Add, type name and password, set admin, confirm: the list becomes the accounts with other names followed by exactly the typed account, or the old list plus that account when the name was unused; nothing is saved. |
| `ManageUsers.RenameKeepsOriginal` | interface2/src/forms/ManageUsersForm.tsx:93-104 | Renaming a stored account in the editor and confirming keeps the original account and adds the renamed one. |
| `ManageUsers.UnchangedEditKeepsTable` | interface2/src/forms/ManageUsersForm.tsx:93-104 | With distinct usernames, opening a stored account and confirming it unchanged makes the stored list the other accounts in their original order followed by that account, a permutation of the old list, and leaves the displayed table unchanged. |
| `ManageUsers.DeletingLastAdminBlocksSave` | interface2/src/forms/ManageUsersForm.tsx:145-174 | Deleting the only administrator is allowed, after which "Save" makes no call. |
| `LegacyManageUsers.ConfirmEdit` | interface/src/forms/ManageUsersForm.js:96-106 | Without a draft the unguarded confirm fails: it throws on reading `username` of `undefined` exactly when the list is non-empty (the filter callback runs), and on an empty list it would store `[undefined]`; with a draft it commits the draft like the newer form, keeps the secret and closes the draft. |
| `LegacyManageUsers.Offered` | interface/src/forms/ManageUsersForm.js:146-212 | The definition of the older form's table/editor switch: table actions only without a draft, editor actions only with one; `LegacyManageUsers.TableHiddenWhileEditing` states its consequence. |
| `LegacyManageUsers.LegacyStep` | interface/src/forms/ManageUsersForm.js:146-181 | In the older form "Delete" does nothing, only confirming changes the document, distinct usernames and the secret are kept, and only "Save" calls out. |
| `LegacyManageUsers.AgreesWithNewerForm` | interface/src/forms/ManageUsersForm.js:64-129 | Every action the older form offers other than "Delete" is offered by the newer form and has the same result there. |
| `LegacyManageUsers.LegacySaveGate` | interface/src/forms/ManageUsersForm.js:206 | Without a draft, "Save" makes no call exactly when no account is an administrator, and otherwise saves then refreshes without changing the state. |
| `LegacyManageUsers.LegacyRun` | interface/src/forms/ManageUsersForm.js:57-129 | Over any sequence of offered actions of the older form the secret is kept, distinct usernames stay distinct and saves are followed by one refresh each. |
| `LegacyManageUsers.OnlyConfirmChangesData` | interface/src/forms/ManageUsersForm.js:178-180 | Because "Delete" has no handler, a session without a confirm leaves the stored document as it was. |
| `LegacyManageUsers.TableHiddenWhileEditing` | interface/src/forms/ManageUsersForm.js:146-157 | While a draft is open, no row can be edited or deleted, no account added and nothing saved. |

## Left out

- Rendering, Material-UI layout, styles and icons: declarative UI with no logic beyond which handler each button is wired to, which `Step`, `Enabled` and `Offered` record.
- The older form's loading and error views (`userDataFetched`, `errorMessage`): they only choose a view from the loader's status.
- The "Reset" button (`loadData`, `onReset`) and loading itself: they re-fetch the document over the network; the model starts from whatever document the form was handed.
- `saveData`, the older form's `onSubmit` prop and `refresh` are external calls; they appear only as the `SaveData` and `RefreshAuth` entries of the effect log, so that their order can be stated.
- `SecuritySettings.tsx` beyond its `User` and `SecuritySettingsData` types: the REST controller and loader are I/O plumbing.
- `UserForm` and the validator rules it applies (required fields, the use it makes of `uniqueUsername`) are not part of this model; only the predicate it is handed is modelled, so whether confirm can be pressed with a taken name is not decided here.
- `sort` works in place on the document's array in the source, so rendering reorders the stored list; the model keeps the stored order and treats the table as a separate sorted copy.
- `Ordering.SortUsers`: states sortedness and permutation but not stability; with duplicate usernames the relative order of equal names is fixed by the insertion order in the model and is not proved to match the browser's.
- The field handlers when no draft is open: spreading `undefined` would build a partial record; the editor that calls them is only rendered with a draft, so the model requires one.
- A handler applied to a field of the other type (the value handler on `admin`, the checkbox handler on a text field): the model assumes the editor, which is not part of this model, calls the value handler only for `username` and `password` and the checkbox handler only for `admin`; any other pairing would not yield a `User`.
- `LegacyManageUsers.LegacySaveGate`: assumes the older form receives a prop named `authenticationContex` with a `refresh` method (interface/src/forms/ManageUsersForm.js:128, 230). The component is exported through `withAuthenticationContext` (js:241), whose source is not part of this model and may supply the context under another name. Without that prop, "Save" would issue the save and then throw before any refresh; the model does not represent that outcome.
- The older form starts with an empty state, so `creating` is `undefined` rather than `false` until the first draft is opened; the model uses `false` (it is only passed to the editor).
