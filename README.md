# Role table and role dialogs, modelled in Dafny

This project models the logic of a small React front end that lists role-assignment
rows (id, name, percentage, reporting lead, project role) and offers two dialogs to
add and to update a role. Its three pieces of logic are modelled:

- **The table engine** (`filter_table.dfy`, module `FilterTable`). It has a comparator
  keyed by column. The role column is compared by a fixed rank (Vice President 1 …
  Assistant Project Manager 4), the others by value. Ascending is the negated descending
  comparator. The module also holds the sort-header click rule, the checkbox selection
  toggle, the inline role edit and the displayed view, which is a stably sorted copy of
  the rows. Class `ProjectTable` holds the four state fields `order`, `orderBy`,
  `selected` and `rows`, and its methods are the handlers that update them.
- **The add-role dialog** (`add_button.dfy`, class `AddButton.AddRoleDialog`). It holds
  `open`, the form and the errors. It has open, close, field edit (which clears that
  field's error), validation, and submit. A valid submit resets the dialog the same way
  close does.
- **The update-role dialog** (`update_button.dfy`, class `UpdateButton.UpdateRoleDialog`).
  It has the same validation and field edit. Opening branches on the selection count and
  prefills the form from the single selected record. Submit turns the percentage back
  into a number and hands the record to the update callback when the id is set. The
  title also depends on the selection count.

Shared pieces: `role_form.dfy` (module `RoleForm`) holds the form fields, the errors and
the validation rules, which both dialogs spell identically. `roles.dfy` (module `Roles`)
holds the role enumeration and its rank. `strings.dfy` (module `Strings`) holds the
JavaScript string operations the code relies on: `trim`, `toString` and `Number` on
integers, and `<` on strings.

The main results:

- The comparator is antisymmetric and transitive. It is zero exactly on equal keys, and
  ascending is the exact negation of descending.
- The view is a permutation of the rows, ordered by the comparator. Rows that tie keep
  their order from `rows` (`SortRows`, `ProjectTable.View`).
- When no two rows share the sort key, flipping the direction shows the exact reverse.
  When all rows tie, as in the initial table sorted by role, the view is `rows` itself.
- Toggling an id twice restores membership, and the same selection when the id was
  absent. A selection without duplicates keeps none.
- The role edit changes the role of the matching rows only.
- A number typed as the percentage passes validation exactly within [0, 100].
- Opening the update dialog on one valid record and submitting without edits delivers
  that record (`PrefillRoundTrip`, `OpenThenSubmit`).

What the components do not do:

- There is no search, no filter criteria, no record insertion with id allocation, no
  deletion and no selection reset after an update or a delete. The add dialog only logs
  the form, and the update and delete callbacks are not connected to the table.
- A direction flip reverses the displayed order when no two rows share the sort key
  (`DirectionFlipReverses`). When the row ids are distinct, it also works the other way:
  if two different rows share the key, the flip does not reverse the order
  (`TiedRowsBlockReversal`). The sort is stable, so tied rows keep their order from
  `rows` in both directions.

## Model

| member | source | states |
|---|---|---|
| `Strings.Trim` | src/components/AddButton.jsx:73 | the trimmed name is empty exactly when the name holds only JavaScript whitespace; otherwise it starts and ends with a non-whitespace character; it is a contiguous slice of the name |
| `Strings.TrimCutsWhitespace` | src/components/AddButton.jsx:73 | what `trim` removes is whitespace: the trimmed name is the name less a prefix and a suffix that are both all whitespace |
| `Strings.NatText` | src/components/UpdateButton.jsx:69 | the decimal text of a natural number is non-empty, all digits, and has no leading zero (it starts with '0' only for 0, which is "0") |
| `Strings.IntTextRoundTrip` | src/components/UpdateButton.jsx:69 | the decimal text of every integer (`toString`) is integer text and `Number` reads it back as the same integer |
| `Strings.LessTrichotomy` | src/components/FilterTable.jsx:46-48 | exactly one of `a < b`, `a == b`, `b < a` holds for JavaScript string order |
| `Strings.LessTransitive` | src/components/FilterTable.jsx:46-48 | JavaScript string order is transitive |
| `Roles.RankOrder` | src/components/FilterTable.jsx:18-23 | Vice President 1 < Senior Project Manager 2 < Project Manager 3 < Assistant Project Manager 4; two roles share a rank, or a label, only when they are the same role |
| `Roles.Options` | src/components/FilterTable.jsx:26 | the select offers four options, each role's label at the position of its rank: Vice President first, Assistant Project Manager last |
| `FilterTable.InitialRowsFacts` | src/components/FilterTable.jsx:29-36 | `InitialRows`: the table starts with six rows, ids 1..6 without duplicates, all Vice President |
| `FilterTable.ComparatorMeaning` | src/components/FilterTable.jsx:39-54 | `RoleComparator`, `DescendingComparator` and `Comparator`: the comparator is zero exactly when the column's key is equal (equal rank for roles); it is negative exactly when the first row's key comes first in the chosen direction (rank, number or string order); ascending equals the negated descending comparator for every column and pair |
| `FilterTable.ComparatorAntisymmetric` | src/components/FilterTable.jsx:39-49 | cmp(a, b) == -cmp(b, a) for every column and direction |
| `FilterTable.ComparatorTransitive` | src/components/FilterTable.jsx:44-54 | cmp(a, b) <= 0 and cmp(b, c) <= 0 imply cmp(a, c) <= 0, so the comparator is a total preorder that sorting can rely on |
| `FilterTable.SortRows` | src/components/FilterTable.jsx:136-138 | the sorted copy is a permutation of the rows, is ordered by the comparator, and for every row the rows tied with it appear in the same relative order as in `rows` (stability) |
| `FilterTable.RoleSortsByRank` | src/components/FilterTable.jsx:39-41 | ascending by role puts a Vice President before an Assistant Project Manager, whichever way round they are given |
| `FilterTable.AllTiedViewKeepsOrder` | src/components/FilterTable.jsx:136-138 | when every row ties on the sort column, the view is `rows` unchanged, in either direction |
| `FilterTable.InitialViewKeepsOrder` | src/components/FilterTable.jsx:29-36 | the initial rows (all Vice President) sorted by role show in their original order in both directions |
| `FilterTable.DirectionFlipReverses` | src/components/FilterTable.jsx:50-54 | when no two different rows share the sort key, the descending view is exactly the reversed ascending view |
| `FilterTable.SortedUnique` | src/components/FilterTable.jsx:136-138 | two sorted permutations of rows with distinct keys are equal, so the view is determined by the comparator alone |
| `FilterTable.TiedRowsBlockReversal` | src/components/FilterTable.jsx:50-54 | among rows with distinct ids, two different rows sharing the sort key make the descending view differ from the reversed ascending view, so `DirectionFlipReverses` needs its requirement |
| `FilterTable.TiesReverse` | src/components/FilterTable.jsx:50-54 | the rows tied with a given row in a reversed sequence are the reversed tie class |
| `FilterTable.StableSortUnique` | src/components/FilterTable.jsx:136-138 | two sorted permutations whose tie classes are equal, each in the same order, are the same sequence, with or without shared keys |
| `FilterTable.StableSortIsSortRows` | src/components/FilterTable.jsx:136-138 | any stable sort of `rows` by the comparator (a sorted permutation keeping each tie class in its `rows` order) is exactly `SortRows` |
| `FilterTable.NextSort` | src/components/FilterTable.jsx:62-66 | the clicked column becomes the sort column; the direction becomes descending exactly when that column was already sorted ascending, ascending on every other click |
| `FilterTable.RepeatedClicksAlternate` | src/components/FilterTable.jsx:62-66 | a second click on the same column flips the direction the first click set |
| `FilterTable.RemoveAll` | src/components/FilterTable.jsx:73 | the filtered selection drops every occurrence of the id, keeps every other id with its multiplicity, and keeps their order (a subsequence) |
| `FilterTable.Toggle` | src/components/FilterTable.jsx:68-75 | an absent id is appended at the end; a present id is removed with the others kept in order; membership flips for that id and for no other |
| `FilterTable.ToggleTwice` | src/components/FilterTable.jsx:68-75 | toggling an id twice restores membership of every id; from an unselected id it restores the identical selection |
| `FilterTable.ToggleKeepsNoDuplicates` | src/components/FilterTable.jsx:68-75 | a selection without duplicates stays without duplicates |
| `FilterTable.SetRole` | src/components/FilterTable.jsx:77-81 | the mapped rows keep length and order; every field but the role is unchanged; the role becomes the new one exactly for the rows with that id |
| `FilterTable.SetRoleFacts` | src/components/FilterTable.jsx:77-81 | the role edit keeps the id sequence, is a no-op for an absent id, and is idempotent |
| `FilterTable.ProjectTable.constructor` | src/components/FilterTable.jsx:57-60 | the table starts ascending by role, with nothing selected and the six sample rows |
| `FilterTable.ProjectTable.View` | src/components/FilterTable.jsx:136-138 | the displayed rows are a permutation of `rows`, sorted by the current order and column, with ties in their order in `rows`; `rows` itself is not modified |
| `FilterTable.ProjectTable.RequestSort` | src/components/FilterTable.jsx:62-66 | order and column become `NextSort` of the old ones; selection and rows are unchanged |
| `FilterTable.ProjectTable.CheckboxClick` | src/components/FilterTable.jsx:68-83 | the selection becomes its toggle; the clicked id's selected state (`IsSelected`, the `isSelected` test) flips and no other id's does; the selection stays duplicate-free |
| `FilterTable.ProjectTable.RoleChange` | src/components/FilterTable.jsx:77-81 | the rows become the role-mapped rows; order, column and selection are unchanged; ids stay distinct |
| `RoleForm.SetField` | src/components/AddButton.jsx:63 | the edited field takes the new value and every other field is kept |
| `RoleForm.ClearError` | src/components/AddButton.jsx:64-67 | editing a field leaves that field without an error and every other field's error as it was |
| `RoleForm.NameError` | src/components/AddButton.jsx:73-75 | "Name is required" exactly when the name is all whitespace (empty after trimming), no error otherwise |
| `RoleForm.PercentageError` | src/components/AddButton.jsx:77-81 | "Percentage is required" for an empty percentage; otherwise no error exactly when the number is within [0, 100], and the range message otherwise |
| `RoleForm.PercentageBounds` | src/components/AddButton.jsx:77-81 | a number typed as the percentage passes exactly when 0 <= n <= 100; both bounds are accepted |
| `RoleForm.Validate` | src/components/AddButton.jsx:70-87 | the computed errors carry the name and percentage messages; the form is valid (no error set) exactly when the name is non-blank and the percentage is present and within [0, 100] |
| `RoleForm.CollectErrors` | src/components/AddButton.jsx:71-81 | building `newErrors` by conditional assignments yields exactly the validation errors; none is set exactly when the form is acceptable |
| `AddButton.AddRoleDialog.constructor` | src/components/AddButton.jsx:29-40 | the dialog starts closed with role "Vice President", lead "Y", empty name and percentage, and no errors |
| `AddButton.AddRoleDialog.ClickOpen` | src/components/AddButton.jsx:42-44 | opening sets `open` and changes neither the form nor the errors |
| `AddButton.AddRoleDialog.Close` | src/components/AddButton.jsx:46-60 | closing clears `open`, resets the form to its defaults and clears both errors |
| `AddButton.AddRoleDialog.InputChange` | src/components/AddButton.jsx:62-68 | only the named field changes, only its error is cleared, `open` is kept |
| `AddButton.AddRoleDialog.ValidateForm` | src/components/AddButton.jsx:70-87 | the errors are replaced wholesale by the computed ones; the result is true exactly when the form is acceptable |
| `AddButton.AddRoleDialog.Submit` | src/components/AddButton.jsx:89-101 | an invalid form returns early: dialog and form unchanged, errors shown, nothing logged; a valid form is logged and the dialog ends exactly as after `Close` |
| `UpdateButton.Prefill` | src/components/UpdateButton.jsx:64-71 | the prefilled form copies role, name and lead and holds the percentage as its `toString` text (`IntText`: canonical decimal digits, a leading '-' for negatives), which reads back as the record's percentage |
| `UpdateButton.Payload` | src/components/UpdateButton.jsx:124-130 | the record handed to the callback carries the given id and the role, name and lead exactly as typed (the name is not trimmed); its percentage is `Number` of the typed text; a form that passes validation gives a percentage within [0, 100] |
| `UpdateButton.PrefillRoundTrip` | src/components/UpdateButton.jsx:124-130 | for any record with a non-blank name and a percentage in [0, 100], the prefilled form is valid and its payload is the record itself |
| `UpdateButton.Title` | src/components/UpdateButton.jsx:137-179 | "No Selection" exactly for a count of 0, "Multiple Selection" exactly for more than 1, otherwise "Update Role - " and the first selected record's name ("undefined" when there is none) |
| `UpdateButton.UpdateRoleDialog.constructor` | src/components/UpdateButton.jsx:36-47 | the dialog starts closed, with no id, every field empty and no errors |
| `UpdateButton.UpdateRoleDialog.ClickOpen` | src/components/UpdateButton.jsx:52-74 | the dialog always opens; with a count neither 0 nor above 1 and a first selected record, id and form are prefilled from it; otherwise id and form are unchanged; errors are kept |
| `UpdateButton.UpdateRoleDialog.Close` | src/components/UpdateButton.jsx:76-90 | closing clears `open`, sets the id to null and every field to "", and clears both errors |
| `UpdateButton.UpdateRoleDialog.InputChange` | src/components/UpdateButton.jsx:92-98 | only the named field changes, only its error is cleared, `open` and the id are kept |
| `UpdateButton.UpdateRoleDialog.ValidateForm` | src/components/UpdateButton.jsx:100-115 | the errors are replaced wholesale by the computed ones, by the same rules as the add dialog; the result is true exactly when the form is acceptable |
| `UpdateButton.UpdateRoleDialog.Submit` | src/components/UpdateButton.jsx:117-135 | an invalid form calls nothing and keeps dialog, id and form; a valid one calls the callback once, only if there is a callback and the id is set and non-zero, with the fields as typed and the percentage as a number, then resets the dialog as `Close` does |
| `UpdateButton.OpenThenSubmit` | src/components/UpdateButton.jsx:117-135 | opening on exactly one valid record and submitting without edits hands the callback that very record |

## Left out

- Rendering is not modelled: JSX, Material UI components, dialogs, the slide transition, styling and icons. They are presentation only.
- `src/components/TableFoot.jsx` is not part of this model. Its buttons have no handlers.
- `src/App.jsx` is not part of this model. It only lays out the search box and the table.
- `src/components/SearchInput.jsx` is not part of this model. It only forwards text to a callback, and no search or filter predicate exists in the code.
- `src/components/DeleteButton.jsx` is not part of this model. It only calls an external `onDelete`; the deletion itself is not in the code.
- Record insertion and id allocation are not modelled because the code has neither. The add dialog's submit only logs the form. That log is the `logged` out-parameter of `AddRoleDialog.Submit`.
- `UpdateButton.Prefill`: a record's percentage is modelled as an integer. `IntText` equals JavaScript's `toString` only below 10^21 in magnitude, where JavaScript switches to exponent form; non-integer percentages are not modelled.
- `AddButton.AddRoleDialog.InputChange`: the percentage field is limited to empty text or integer text (an optional minus sign and decimal digits). This is what a number input hands back for whole numbers. Decimal fractions, exponents and the string-to-number coercion of other text (NaN passes the range check) are not modelled.
- `UpdateButton.UpdateRoleDialog.InputChange`: the percentage field is limited in the same way, for the same reason.
- `Strings.Less` compares characters by Unicode code point. JavaScript compares UTF-16 code units. The two orders differ only between characters above U+FFFF and characters in U+E000–U+FFFF.
- `FilterTable.SortRows` models the engine's `Array.prototype.sort` as a stable insertion sort. The language requires `sort` to be stable, and the comparator is proved to be a total preorder, so any stable sort gives exactly this result (`StableSortIsSortRows`).
- React's asynchronous, batched state updates are not modelled. Each handler is an atomic step, so `handleInputChange` tests the errors as they stand when it is called.
- The update callback `onUpdateRole` is modelled by the `hasCallback` parameter and the returned `update` of `UpdateRoleDialog.Submit`. The caller's handling of the update is not in the code.
- `event.stopPropagation()` in the checkbox handler is not modelled. It is a DOM effect.
- `getModalContent` is modelled only for its title. Its content and actions are markup.
- The table rows carry the role as the four-value enumeration, because the table's select only offers those. The update dialog keeps role and lead as text, as its form does, because its reset sets them to "".
