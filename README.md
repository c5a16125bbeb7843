# react-ui-components: the table's sort and selection, and the text field's state

A Dafny model of the logic in two React widgets of the repository:

- `DataTable` (src/components/DataTable/DataTable.tsx) keeps a sort state `(sortKey, sortAsc)`.
  From it, the table derives a sorted view of its rows. A copy of `data` is sorted in place with a
  nulls-last comparator. The table also keeps a selection of positions in that view, and it
  notifies `onRowSelect` with the selected rows. It shows a loading status, an empty message or
  the table.
- `InputField` (src/components/InputField/InputField.tsx) keeps the displayed text `internalValue`
  and the reveal flag `showPassword`. It derives the input's `type`, the visibility of the clear
  and reveal buttons, the message under the field and the accessible name.
- The `Column` record of src/types/table.ts becomes a datatype.

Layout:

- `wrappers.dfy`: the `Option` type, used for nullable values.
- `table_types.dfy`: rows, values and columns. `Project` is a row's value at a key, where an
  absent key and `null` are both `None`, as `== null` treats them.
- `table_sort.dfy` has three parts:
  - the comparator and the order it is meant to produce (`Before`);
  - a stable insertion sort as a function (`InsertionSort`), with its permutation, order and
    stability lemmas;
  - the in-place array sort (`SortInPlace`), proved equal to that function.
- `selection.dfy` covers the selection:
  - A JavaScript `Set<number>` holds each element once and iterates in insertion order.
  - `[...next].map(...)` follows that order.
  - So a selection is a sequence without repetitions, oldest insertion first.
- `data_table.dfy`: the class `Table`, whose handlers are atomic transitions of its fields
  `sortKey`, `sortAsc` and `selected`. Each selection handler returns its `onRowSelect` payload.
  The file also holds the sort-state function `NextSort`, the view choice and two scenarios.
- `input_field.dfy`: the class `Field`, with its handlers, the pure derived values and two
  scenarios.

`data` is a constant of a `Table` and is never assigned. `SortedView` sorts a fresh array holding
a copy of it.

Where the component's documented behaviour and its code differ, the model follows the code:

- The selection payload lists rows in the order their positions were added to the `Set`. That is
  the iteration order of a JavaScript `Set`; it is not an arbitrary order.
- The clear button calls `onChange` with an empty object, not with an empty text. It is modelled
  as the event `Cleared`. An edit calls `onChange` with the input event; it is modelled as
  `Edited(text)`, carrying the event's text.
- `if (!sortKey)` treats an empty key like no key. A column whose `dataIndex` is `""` becomes the
  sort key but leaves the view unsorted.
- Nothing keeps the selection within the rows when `data` changes. The model fixes `data` for the
  life of a `Table`.

## Model

| member | source | states |
|---|---|---|
| TableTypes.Project | src/components/DataTable/DataTable.tsx:37-40 | a row's value at the key is present exactly when the key is there with a non-null value, and is that value |
| TableSort.CompareAgreesWithBefore | src/components/DataTable/DataTable.tsx:36-43 | a non-positive answer lets `a` precede `b` in the nulls-last order, a positive one lets `b` precede `a`, and the answer is 0 exactly when both rows carry the same value |
| TableSort.CompareInconsistentOnNulls | src/components/DataTable/DataTable.tsx:39 | for two rows without a value the comparator puts each after the other, and such a row even after itself, so it is not a consistent comparator once a row lacks the value |
| TableSort.CompareConsistentOnValues | src/components/DataTable/DataTable.tsx:40-42 | on rows that all carry the value the comparator is consistent: a row equals itself, swapping flips the sign, and "not after" and "equal" are transitive |
| TableSort.SortPermutes | src/components/DataTable/DataTable.tsx:35-36 | the sort holds the same rows as its input, each as often |
| TableSort.SortOrdered | src/components/DataTable/DataTable.tsx:36-43 | every pair of positions of the sorted rows is in the nulls-last order of the requested direction |
| TableSort.SortStable | src/components/DataTable/DataTable.tsx:36 | rows carrying one and the same value keep their relative order in the stand-in sort; `Array.prototype.sort` promises this only when every row carries the value |
| TableSort.SortTwo | src/components/DataTable/DataTable.tsx:36-43 | two rows, at least one of them with a value, are swapped exactly when the comparator puts the first after the second |
| TableSort.View | src/components/DataTable/DataTable.tsx:33-45 | the view is a permutation of `data`, and equals `data` when there is no sort key or the key is empty |
| TableSort.ViewNullsLast | src/components/DataTable/DataTable.tsx:39-40 | in both directions, once a row of the view has no value, no later row has one |
| TableSort.ViewMonotone | src/components/DataTable/DataTable.tsx:41-42 | among rows with a value, the view is non-decreasing ascending and non-increasing descending |
| TableSort.ViewStable | src/components/DataTable/DataTable.tsx:33-45 | rows with equal values appear in the view in their order in `data` |
| TableSort.InsertSplits | src/components/DataTable/DataTable.tsx:36-43 | one insertion step keeps the rows before the insertion point and shifts the rest one place right |
| TableSort.OpenGap | src/components/DataTable/DataTable.tsx:36-43 | the inner loop stops at the insertion point, shifts the rows it passed one place right and leaves every other element alone |
| TableSort.InsertLast | src/components/DataTable/DataTable.tsx:36-43 | one outer step turns the prefix `a[..i+1]` into the insertion of `a[i]` into the sorted `a[..i]` and leaves the rest alone |
| TableSort.SortInPlace | src/components/DataTable/DataTable.tsx:35-36 | the array ends up holding the insertion sort of its old contents, so everything proved of the sort holds of it |
| Selection.Without | src/components/DataTable/DataTable.tsx:49 | deleting a position leaves exactly the other positions |
| Selection.WithoutAbsent | src/components/DataTable/DataTable.tsx:49 | deleting a position that is not selected changes nothing |
| Selection.WithoutKeepsOrder | src/components/DataTable/DataTable.tsx:49 | deleting a selected position keeps the positions before and after it in their insertion order |
| Selection.AllIndicesSize | src/components/DataTable/DataTable.tsx:60 | `new Set(sorted.map((_, i) => i))` holds each position once, has `n` elements, and holds `j` exactly when `0 <= j < n` |
| Selection.ToggledFlipsOnlyI | src/components/DataTable/DataTable.tsx:47-50 | a toggle flips the membership of its position and of no other, and keeps the selection valid for the view |
| Selection.ToggleTwice | src/components/DataTable/DataTable.tsx:48-50 | toggling twice restores the set of selected positions; a selected position comes back last in insertion order |
| Selection.DistinctSize | src/components/DataTable/DataTable.tsx:56 | a `Set`'s `size` is the number of positions it lists |
| Selection.AllSelectedIffFull | src/components/DataTable/DataTable.tsx:56 | `selected.size === sorted.length` holds exactly when every position of the view is selected |
| Selection.SelectAllStepMeaning | src/components/DataTable/DataTable.tsx:55-63 | select-all clears a selection that holds every row, and otherwise selects every row; the result is valid |
| Selection.SelectAllFlipsHeader | src/components/DataTable/DataTable.tsx:55-64 | on a non-empty view select-all flips the header checkbox, and twice from nothing gives nothing back |
| Selection.PayloadMatchesSelection | src/components/DataTable/DataTable.tsx:52 | the payload's length is the selection's size, its `k`-th row is the view's row at the `k`-th selected position, and it holds every selected row |
| Selection.MaterializeAll | src/components/DataTable/DataTable.tsx:60-62 | the whole view, sent when everything is selected, is the payload of the full selection |
| DataTable.ScreenFor | src/components/DataTable/DataTable.tsx:66-80 | loading wins, then an empty row list shows the empty message, and only a non-empty one shows the table |
| DataTable.NextSortMeaning | src/components/DataTable/DataTable.tsx:23-30 | a column that is not sortable changes nothing; a sortable one becomes the key, flipping the direction if it already was the key and ascending otherwise |
| DataTable.RepeatedSortAlternates | src/components/DataTable/DataTable.tsx:25-30 | `n` clicks on a sortable header that is not the key sort by it, ascending exactly when `n` is odd |
| DataTable.SortTwiceRestores | src/components/DataTable/DataTable.tsx:26 | two clicks on the header of the current key restore the sort state |
| DataTable.IndicatorFollowsSort | src/components/DataTable/DataTable.tsx:107-108 | after a click on a sortable header, that header shows the arrow of the new direction |
| DataTable.NextSortKeepsKeyFromSortableColumn | src/components/DataTable/DataTable.tsx:24-29 | the sort key is only ever the `dataIndex` of a sortable column |
| DataTable.Table.constructor | src/components/DataTable/DataTable.tsx:19-21 | the first render has no sort key, ascending order and an empty selection |
| DataTable.Table.HandleSort | src/components/DataTable/DataTable.tsx:23-31 | the sort state moves by `NextSort` and the selection is untouched, so its positions now name rows of the new order |
| DataTable.Table.SortedView | src/components/DataTable/DataTable.tsx:33-45 | the view computed by copying and sorting in place is `View`, so it is a permutation of `data`, and everything proved of the stand-in sort holds of it |
| DataTable.Table.ToggleRow | src/components/DataTable/DataTable.tsx:47-53 | the selection is toggled at `index` and stays valid, and the payload is the view's rows at the selected positions |
| DataTable.Table.ToggleAll | src/components/DataTable/DataTable.tsx:55-64 | a full selection is cleared with payload `[]`; otherwise every position is selected with the whole view as payload |
| InputField.InputType | src/components/InputField/InputField.tsx:56 | the input is masked exactly for a password field not revealed through the toggle; a revealed one is `text`, and any other keeps its `type` |
| InputField.ToggleLabelDescribesType | src/components/InputField/InputField.tsx:97-99 | on a shown reveal button the label reads `hide password` exactly when the input shows its text, and `show password` exactly when it is masked |
| InputField.MessageFor | src/components/InputField/InputField.tsx:110-116 | the error text shows exactly when invalid with a non-empty error; otherwise a non-empty helper text; a shown message is never empty |
| InputField.ToggleShownIffItMatters | src/components/InputField/InputField.tsx:97 | the reveal button is offered exactly when pressing it changes the input's type |
| InputField.EmptyFieldHasNoClearButton | src/components/InputField/InputField.tsx:83 | an empty field never offers the clear button |
| InputField.AriaLabelFallsBack | src/components/InputField/InputField.tsx:70 | the accessible name falls back from the label to the placeholder to `input`, and an empty label is hidden but still the name |
| InputField.Field.constructor | src/components/InputField/InputField.tsx:46-47 | the field starts with the `value` prop, or `''` without one, and masked |
| InputField.Field.HandleChange | src/components/InputField/InputField.tsx:51-54 | an edit takes the typed text and notifies `onChange` once, with that edit |
| InputField.Field.Clear | src/components/InputField/InputField.tsx:86-89 | clearing empties the text, notifies `onChange` once and takes the clear button away |
| InputField.Field.TogglePassword | src/components/InputField/InputField.tsx:97-100 | the reveal button flips `showPassword` and switches the input between `text` and `password` |
| InputField.Field.ReceiveValue | src/components/InputField/InputField.tsx:49 | a render with a new `value` resets the text to it, or to `''` when absent; the same `value` leaves the text alone |

## Left out

- Markup, Tailwind class strings, `variant`, `size` and the `sizeClasses`/`variantClasses` lookups
  are presentation only.
- React scheduling (`useState` setters, `useMemo`, `useEffect` timing): each handler is one atomic
  transition, and the `sorted` memo is recomputed wherever it is read.
- JavaScript's mixed-type `>` and `===` on cell values, string values and `String(...)` cell
  formatting (DataTable.tsx line 131): every value is an `int`.
- The actual algorithm of `Array.prototype.sort`: a stable insertion sort with the same comparator
  stands in for it. ECMA-262 (section 23.1.3.30 of the 2023 edition) fixes the sort's result only
  for a consistent comparator, and this one answers 1 for a row without the value compared with
  itself or with another such row. So once any row lacks the value, the whole order of the view
  is the engine's choice.
- TableSort.ViewNullsLast, TableSort.ViewMonotone, TableSort.ViewStable and TableSort.SortStable:
  these hold of the stand-in sort. The program is guaranteed them only when every row carries
  the value at the sort key, where the comparator is consistent (`CompareConsistentOnValues`).
- TableSort.SortTwo: requires one of the two rows to carry the value; for two rows without it the
  order is the engine's.
- Changes of the `data`, `columns`, `loading` and `selectable` props after the first render: they
  are constants of a `Table`, so a selection that no longer fits a shorter `data` is not modelled.
- DataTable.Table.ToggleRow: requires `index < |data|`; the code does not guard an out-of-range
  index, but the rows' checkboxes only pass positions of the view.
- The sort buttons' `aria-label` (line 103), the row checkboxes' labels (line 122) and the row
  highlight (line 118) are presentation.
- Whether a handler is reachable (`selectable` hides the checkboxes, `loading` hides the table) is
  not a precondition of the handlers.
- InputField.Field.Clear and InputField.Field.TogglePassword: require their button to be shown,
  since the handler is only reachable through it.
- A disabled input refusing keystrokes is the browser's doing: `HandleChange` accepts any text.
- `onChange` itself is not called: each handler returns the event it would pass, so "exactly once"
  is one event per call.
