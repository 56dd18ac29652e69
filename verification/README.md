# Student-table cell editors, modelled in Dafny

The application is a student table built on a data grid. Its custom cells hold
a few small state machines, and this project models them as pure functions over
immutable state. The one way they change the grid, `node.setDataValue(field, v)`,
is returned as a `Grid.GridWrite` value instead of being performed.

- `validators.dfy` (module `Validators`): the validators dialog of
  `myTableWithValidators.tsx`. It edits an ordered list of `{type, value?}` rules
  (`type` is called `kind` here) with add, update, edit, cancel and remove. It
  refuses a kind that another entry already has. Every successful change is
  written to the grid.
- `option_store.dfy` (module `OptionStore`): the option list shared by the two
  college editors. It is a duplicate-free list of names, the selected value, and
  the text of the "add" field.
- `college_autocomplete.dfy` (module `CollegeAutocomplete`): the free-solo
  autocomplete editor. Its selection accepts any string.
- `college_select.dfy` (module `CollegeSelect`): the select editor. Its own
  change handler does nothing.
- `cell_adjusters.dfy` (module `CellAdjusters`): the age stepper (±1, floored at
  zero) and the presence switch of `myTable.tsx`.
- `common.dfy`: `Optional.Option` (JavaScript `undefined`/`null`), `Grid.GridWrite`,
  and `Sequences`, which models the two `Array.filter` shapes the components use.

Each handler is one atomic step on a state record. Where a run of interactions
matters, it is modelled as a fold over an `Event` sequence. Examples are
`Validators.Run`, `CollegeAutocomplete.Run`, `CollegeSelect.Run` and
`CellAdjusters.Clicks`. The dialog's draft-kind and draft-text handlers are the
`ChooseType` and `TypeValue` steps of `Validators.Step`. The autocomplete's and
select's add-field handlers are the `Input` and `NewOption` steps.

Two facts about the code shape what is proved:

- Neither college editor keeps the selection among the options. The
  autocomplete takes any string as its value, and the select starts from the
  cell's value, listed or not. `OptionStore.SelectionListed` ("the selection is
  empty or listed") is therefore proved to be preserved by add and delete, not
  to hold always.
- The validators dialog writes the whole list to the grid on every successful
  add, update and remove, not once when the dialog closes.

The dialog's runs (`Validators.Run`) take a `DeleteMode`. `AsWritten` uses the
component's delete, and `Corrected` uses the delete described under
"## Findings". Properties stated for both modes hold of the component itself.

## Model

| member | source | states |
|---|---|---|
| Validators.Init | src/components/myTableWithValidators.tsx:44-53 | The dialog starts from the cell's list, or `[]` when the cell has none. It starts with no edit target, draft kind `regex`, empty draft text and no error. A seed with distinct kinds gives a well-formed state. |
| Validators.ResetEditor | src/components/myTableWithValidators.tsx:55-60 | Cancel clears the edit target, draft and error to their initial values. It keeps the list and the column. |
| Validators.CollisionFrom | src/components/myTableWithValidators.tsx:63-66 | The duplicate scan is true exactly when some position other than the edit target, at or after `from`, holds the draft's kind. |
| Validators.NewValidator | src/components/myTableWithValidators.tsx:72-73 | The stored rule has the draft's kind. It has no parameter exactly when the kind is `base64`, and otherwise the parameter is the draft text. |
| Validators.AddOrUpdate | src/components/myTableWithValidators.tsx:62-88 | The submit is refused exactly when another entry has the draft's kind. A refusal sets an error naming the kind, changes nothing else and writes nothing. On success, an add appends the rule and an update replaces only the edited position, keeping the length. An edit target equal to the list length also appends, as the indexed write at line 78 does. The grid receives exactly the new local list, the draft is reset, and distinct kinds stay distinct. |
| Validators.UpdateOwnKindSucceeds | src/components/myTableWithValidators.tsx:63-66 | In a well-formed state, updating the edited entry without changing its kind is never refused, because an entry does not collide with itself. |
| Validators.Edit | src/components/myTableWithValidators.tsx:90-95 | The pencil icon makes entry `idx` the edit target and loads its kind and parameter into the draft, with a missing parameter read as "". It clears the error and leaves the list alone. |
| Validators.EditThenSubmitRoundTrip | src/components/myTableWithValidators.tsx:62-95 | Editing an entry of a kind-distinct list and submitting the loaded draft always succeeds. It leaves the list unchanged if and only if the entry is canonical, meaning base64 without a parameter or another kind with one. |
| Validators.RemoveAsWritten | src/components/myTableWithValidators.tsx:97-101 | The component's delete removes exactly position `idx` and keeps the others in order. It writes that same list to the grid, keeps kinds distinct and leaves every other field, the edit target included, unchanged. |
| Validators.Remove | src/components/myTableWithValidators.tsx:97-101 | The corrected delete keeps the component's list and grid write. It moves the edit target with the entry it named, or resets the draft when that entry is deleted, so a well-formed state stays well-formed. Nothing else changes: with no edit target only the list changes, and with another entry targeted only the list and the target index change. |
| Validators.StaleEditTargetAfterRemove | src/components/myTableWithValidators.tsx:90-101 | Start from [enum, regex, base64], edit the regex rule and delete the enum rule with the component's delete. The edit target then points at base64, and submitting the unchanged regex draft is refused as a duplicate. |
| Validators.CorrectedRemoveKeepsEditTarget | src/components/myTableWithValidators.tsx:62-101 | In the same scenario with the corrected delete, the submission updates the regex rule in place. The grid receives [regex, base64]. |
| Validators.Step | src/components/myTableWithValidators.tsx:55-154 | Each dialog interaction (buttons, icons, kind selector, parameter field) writes to the grid exactly on a delete or an accepted submit, and writes the list it leaves locally; otherwise the list is unchanged. The column stays fixed and distinct kinds stay distinct. The selector and field change only the draft. With the component's delete the edit target is untouched; with the corrected delete a well-formed state also stays well-formed. |
| Validators.RunKeepsInvariants | src/components/myTableWithValidators.tsx:62-101 | Over any run of offered interactions, with either delete, a kind-distinct list stays kind-distinct and every list written goes to the cell's own column with distinct kinds. The grid ends up holding the dialog's list: the last write is the final list, and with no write the list is the initial one. |
| Validators.CorrectedRunKeepsWellFormed | src/components/myTableWithValidators.tsx:62-101 | With the corrected delete, a run that starts well-formed ends well-formed, so the edit target always names an entry. |
| Validators.AddRegexExample | src/components/myTableWithValidators.tsx:62-88 | Adding `regex "[a-z]+"` to a cell holding `[enum "A,B"]` gives `[enum "A,B", regex "[a-z]+"]`. The grid receives that list exactly once. |
| Sequences.DropIndex | src/components/myTableWithValidators.tsx:98 | Filtering by position removes one element when the position is in range and none otherwise. |
| Sequences.DropIndexIsSplice | src/components/myTableWithValidators.tsx:98 | Filtering by position equals the splice `s[..idx] + s[idx+1..]` when `idx` is in range, and leaves `s` unchanged otherwise. |
| Sequences.RemoveAll | src/components/CollegeAutocompleteEditor.tsx:28 | Filtering a value out leaves exactly the other elements with their multiplicities, never the value itself, and changes nothing when the value is absent. |
| Sequences.RemoveAllKeepsDistinct | src/components/CollegeSelectEditor.tsx:29 | Filtering a value out of a duplicate-free list leaves it duplicate-free. |
| Sequences.RemoveAllOfDistinctIsSplice | src/components/CollegeAutocompleteEditor.tsx:28 | In a duplicate-free list, filtering out the value at position `k` is the splice that removes position `k`. |
| OptionStore.CollegesDistinct | src/components/CollegeAutocompleteEditor.tsx:11 | The initial option list is four distinct names. |
| OptionStore.Add | src/components/CollegeAutocompleteEditor.tsx:19-25 | Add does nothing for empty or already-listed text. Otherwise it appends the text, selects it and clears the add field. The options stay duplicate-free, a listed-or-empty selection stays so, and the resulting members are exactly the old ones plus the text. |
| OptionStore.Delete | src/components/CollegeAutocompleteEditor.tsx:27-30 | Delete removes every occurrence of the option and keeps all other options. The value becomes "" exactly when it was the deleted option (or already ""), and otherwise stays. The add field is untouched and duplicate-freedom is preserved. |
| OptionStore.DeleteRemovesPosition | src/components/CollegeAutocompleteEditor.tsx:28 | Deleting a listed option of a duplicate-free list removes just its position. The other options keep their order. |
| OptionStore.DeleteSelectedClearsValue | src/components/CollegeAutocompleteEditor.tsx:29 | Deleting the selected option always leaves the value "". |
| OptionStore.AddTwiceIsAddOnce | src/components/CollegeAutocompleteEditor.tsx:20 | Typing a text and adding it twice gives the same options as adding it once. |
| OptionStore.AddEachAppends | src/components/CollegeAutocompleteEditor.tsx:19-25 | Adding distinct, non-empty, unlisted texts one after another lists each exactly once, after the old options and in call order. The last one is selected. |
| CollegeAutocomplete.Init | src/components/CollegeAutocompleteEditor.tsx:10-12 | The editor opens with the cell's value, or "" when it has none. It starts over the four default colleges with an empty add field. |
| CollegeAutocomplete.OnChange | src/components/CollegeAutocompleteEditor.tsx:38-40 | Any string becomes the value the grid reads, listed or not (free-solo mode). A non-string is ignored. Options and the add field never change. |
| CollegeAutocomplete.GetValue | src/components/CollegeAutocompleteEditor.tsx:15-17 | Whenever the grid polls the editor, it gets the current selection, free text included. |
| CollegeAutocomplete.Step | src/components/CollegeAutocompleteEditor.tsx:19-42 | Typing in the field only records the text. A change keeps the options and the add field. No interaction makes the options hold a duplicate. |
| CollegeAutocomplete.RunKeepsOptionsDistinct | src/components/CollegeAutocompleteEditor.tsx:19-42 | No sequence of adds, deletes, selections and typing ever lists a college twice. |
| CollegeAutocomplete.GetValueFollowsAddAndDelete | src/components/CollegeAutocompleteEditor.tsx:15-30 | After a successful add the grid reads the added text. After deleting the selection it reads "". After deleting another option it reads the old value. |
| CollegeSelect.Init | src/components/CollegeSelectEditor.tsx:14-21 | The editor opens with the cell's value over the four distinct default colleges and an empty add field. |
| CollegeSelect.GetValue | src/components/CollegeSelectEditor.tsx:24-26 | Whenever the grid polls the editor, it gets the current selection. |
| CollegeSelect.Step | src/components/CollegeSelectEditor.tsx:28-44 | Picking a menu entry changes nothing, because the change handler is disabled. Typing in the add field only records the text. Every interaction keeps the options duplicate-free and an empty-or-listed selection so. |
| CollegeSelect.ValueMovesOnlyByAddOrDelete | src/components/CollegeSelectEditor.tsx:24-44 | Picking menu entries and typing in the add field never change the options or the value the grid reads, because the Select's change handler does nothing. |
| CollegeSelect.RunKeepsStoreInvariants | src/components/CollegeSelectEditor.tsx:28-39 | Any run of interactions keeps the options duplicate-free, and keeps an empty-or-listed selection so. |
| CollegeSelect.AddThenDeleteRestores | src/components/CollegeSelectEditor.tsx:28-39 | Adding a new college and then deleting it restores the option list and leaves the value "". |
| CellAdjusters.UpdateAge | src/components/myTable.tsx:29-35 | One click writes once, to the column's own field. The written age is never negative, never below the old age (a missing age read as 0) plus `delta`, and is either that sum or 0. |
| CellAdjusters.UpdateAgeEdges | src/components/myTable.tsx:29-53 | Minus from 0 or from a missing age writes 0. Plus from `n >= 0` writes `n + 1`. A missing age behaves exactly as 0. |
| CellAdjusters.RepeatedClicks | src/components/myTable.tsx:29-61 | Starting from `age >= 0`, `k` minus clicks end at `age - k` or at 0 once the age runs out. `k` plus clicks end at `age + k`. |
| CellAdjusters.Toggle | src/components/myTable.tsx:70-75 | The switch writes to its own column exactly the value it read, not its negation. |
| CellAdjusters.ToggleNeverChangesCell | src/components/myTable.tsx:70-75 | However often the switch is clicked, the cell keeps its value. |
| CellAdjusters.ToggleCorrected | src/components/myTable.tsx:70-74 | The corrected switch writes the negation of the value it read, to its own column. |
| CellAdjusters.CorrectedToggleAlternates | src/components/myTable.tsx:70-74 | With the corrected switch, the cell shows the read value after an even number of clicks and its negation after an odd number. |

## Left out

- Rendering, styling, the dialog's open/close state and the "Return to Table" button. These are presentation only.
- Grid module registration, column definitions, the hard-coded rows, the two `MyTable` components and `src/App.tsx`. These are library configuration and mounting, not state logic.
- React state batching, stale closures and the `useImperativeHandle` mechanics. Each handler is modelled as one atomic step, and `getValue` as a read of the current state.
- Keyboard `stopPropagation` and focus handling. These are UI event plumbing.
- Validators.AddOrUpdate: requires the edit target to be at most the list length. A target equal to the length is modelled as an append. With the component's delete, a target beyond that is reachable: edit the last entry, then delete two entries. The source's write there leaves a sparse JavaScript array with holes, which a sequence of rules cannot represent.
- Validators.RunKeepsInvariants: in `AsWritten` runs, a submission is offered only while the edit target is at most the list length, for the same reason.
- Validators.Edit: requires `idx` to name an entry, because the pencil icons exist only for listed entries.
- The Add button's `disabled` guard (base64, or non-empty draft text) is modelled only as a condition on which interactions a run may contain (`Validators.Enabled`), not as behaviour of `AddOrUpdate`.
- CollegeSelect.Init: takes the cell's value as a string. An undefined cell value, which the source would keep as `undefined`, is not modelled.
- CellAdjusters.UpdateAge: models ages as unbounded integers. JavaScript number semantics, such as fractions, NaN and precision loss, are not modelled, since only ±1 deltas occur.
- The age stepper and the switch re-read the cell's value after each write. The model assumes the grid refreshes the renderer with the written value before the next click.

## Findings

| source | as written | input that shows it | evidently intended | confidence | as-written member | corrected member |
|---|---|---|---|---|---|---|
| src/components/myTableWithValidators.tsx:97-101 | Deleting an entry does not adjust `editingIdx`, so the edit target keeps pointing at a position whose entry has moved. | List [enum, regex, base64]: edit entry 1 (regex), delete entry 0, submit the unchanged draft. The update is refused with `Validator "regex" already exists`. | The edit target follows the entry it named, and deleting that entry resets the draft. | medium, not executed | Validators.StaleEditTargetAfterRemove | Validators.CorrectedRemoveKeepsEditTarget |
| src/components/myTable.tsx:70-75 | The switch writes back the value it read, so clicking it never changes the cell. | A cell holding `true`: a click writes `true`. | Write `!value`, as the commented-out update at line 72 does. | high, not executed | CellAdjusters.ToggleNeverChangesCell | CellAdjusters.CorrectedToggleAlternates |
