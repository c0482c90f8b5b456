# DataTable and InputField: a Dafny model

This project models the behaviour of the two React widgets of the
repository: the data table (`src/components/DataTable.tsx`) and the input
field (`src/components/InputField.tsx`).

- `options.dfy`: `Option`. It stands for JavaScript's `null`/`undefined` and for optional props.
- `table_sort.dfy` (module `TableSort`): the column comparator and the sorted view.
  - The sort is modelled as a permutation of positions, built by a stable insertion sort under the strict order "the comparator says before, or it says equal and the record comes first in `data`".
  - Proved: the view is a permutation of `data`; it is ordered with missing values last; it is stable.
  - Proved: it is the only order with these properties. So it is what any stable sort with this comparator produces, `Array.prototype.sort` included.
  - Proved: with at least two records, the descending order is the reverse of the ascending one exactly when every record has the field and no two values are equal.
- `table_selection.dfy` (module `TableSelection`): a record's identity (`id ?? index`), the set "select all" builds, and the filter that `onRowSelect` receives.
- `data_table.dfy` (module `DataTable`):
  - the tri-state sort transition of a header click;
  - `aria-sort` and the header glyph;
  - the header checkbox state;
  - the body rows of one render (loading placeholders, the empty row, or one record row per sorted record with its checkbox and cells);
  - the class `DataTableInstance`, whose methods are the `onSort`, `toggleAll` and `toggleRow` handlers. They update the `sort` and `selectedIds` state and return what `onRowSelect` is called with.
- `input_field.dfy` (module `InputField`):
  - the input, helper and error ids;
  - `aria-invalid` and `aria-describedby`. A split/join round trip shows what a reader of the id list finds;
  - which message is shown;
  - the clear button, the password toggle and the spinner;
  - the class `InputFieldInstance`, whose one state field `internalType` is flipped by the toggle.

Record values are modelled as integers. A record is `Row(id, fields)`, and a field missing from `fields` is a `null`/`undefined` value. The field named `id` is the record's `id`, as `row.id` is `row["id"]` in the component, so a column over `id` sorts and shows the identity.

Identities are integers, so a numeric `id` and a position can coincide. They are then one member of the selection, as in the component's `Set`.

Where the code differs from what the prop names and the tests suggest was intended, the model follows the code:

- A record without `id` gets its identity from its position in the sorted view when its row checkbox is rendered and clicked (`DataTable.tsx:145-158`). "Select all" and the `onRowSelect` filter use its position in `data` (`:51-53`). `DataTable.SortedPositionIdentity` shows a checked row whose identity selects no record. `DataTable.OtherRecordReported` and `DataTable.ClickFirstSortedRow` show two records without `id`, sorted ascending: clicking "Select row 1", which displays the second record, reports the first.
- The header checkbox compares only the size of the selection with the number of records (`:46`); see `DataTable.AllCheckedBySizeOnly`.
  - When two records share an identity, the header does not show all checked right after "select all", and a second click selects everything again (`DataTable.AllCheckedAfterSelectAll`, `DataTable.SelectAllTwice`).
  - The report holds one row per record whose identity is selected (`TableSelection.SelectedRowsSpec`). An identity that belongs to no record, such as a stale one or a sorted position that is no record's `id` or original position, adds no row. An identity shared by several records adds one row per record.
- The clear button and the password toggle can both be shown at once (`InputField.tsx:90`, `:107`). Only loading suppresses both.
- The invalid style (`field-invalid`) follows the `invalid` prop alone (`InputField.tsx:57`), while `aria-invalid` also follows a non-empty error message (`:64`, `:76`). An error message alone marks the input invalid without the invalid style; see `InputField.ErrorWithoutInvalidStyle`.
- `aria-describedby` names the helper id whenever helper text is given (`InputField.tsx:77`). When an error message hides the helper paragraph (`:119`), no element carries that id.

## Model

| member | source | states |
|---|---|---|
| TableSort.FieldValue | src/components/DataTable.tsx:34-35 | the value under `id` is the record's `id`; any other key gives the field's value when present and `null`/`undefined` otherwise |
| TableSort.Compare | src/components/DataTable.tsx:33-42 | the result is -1, 0 or 1; 0 exactly for equal values (two missing values are equal); a missing value sorts after a present one; for present values, before exactly when smaller (ascending) or larger (descending) |
| TableSort.BeforeTransitive | src/components/DataTable.tsx:33-42 | the comparator with ties broken by original position is transitive (with BeforeIrreflexive and BeforeTotal: a strict total order on positions) |
| TableSort.SortOrderSorted | src/components/DataTable.tsx:30-44 | the sort order lists every position of `data` exactly once, in comparator order with ties in original order |
| TableSort.SortedView | src/components/DataTable.tsx:30-44 | no sort gives `data` itself; a sort gives a view of the same length whose k-th record is the record of `data` at the k-th position of the sort order |
| TableSort.SortedViewIsPermutation | src/components/DataTable.tsx:30-32 | the view holds the same multiset of records as `data`; `data` itself, a value, is never reordered |
| TableSort.SortedViewNullsLast | src/components/DataTable.tsx:36-38 | in the view, every record missing the key comes after every record that has it, in both directions |
| TableSort.SortedViewOrdered | src/components/DataTable.tsx:39-41 | present values are non-decreasing in the view when ascending and non-increasing when descending |
| TableSort.SortedViewStable | src/components/DataTable.tsx:33-42 | records with equal values (or both missing) keep their relative order from `data` |
| TableSort.SortOrderUnique | src/components/DataTable.tsx:30-44 | any ordering of all positions that respects the comparator with ties in original order equals the model's sort order, so any stable sort yields the same view |
| TableSort.DescendingReversesAscending | src/components/DataTable.tsx:39-40 | when the present values are distinct and no record lacks the key, the descending order and view are the reverse of the ascending ones |
| TableSort.ReverseOnlyWithoutTies | src/components/DataTable.tsx:36-41 | conversely, with at least two records, a descending order that is the reversed ascending order means every record has the key and no two values are equal; this is stated on orders, since views of equal records can coincide anyway |
| TableSort.AbsentKeyKeepsOrder | src/components/DataTable.tsx:36 | sorting by a key whose value every record lacks leaves the view equal to `data` |
| TableSelection.Identity | src/components/DataTable.tsx:58 | a record's identity is its `id` when it has one and the given position otherwise (the definition; `IdentityCount` and `SelectedRowsSpec` state its consequences) |
| TableSelection.IdentitiesUpTo | src/components/DataTable.tsx:51 | the set built from the first n records holds exactly the identities `id ?? index` of those records |
| TableSelection.IdentitySet | src/components/DataTable.tsx:50-51 | "select all" holds every record's identity and nothing else |
| TableSelection.IdentityCount | src/components/DataTable.tsx:46-51 | the identity set has at most one member per record, and exactly one per record iff no two records share an identity |
| TableSelection.SelectedPositions | src/components/DataTable.tsx:53 | the positions kept by the filter are increasing, and a position is kept iff the identity of its record is selected |
| TableSelection.SelectedRows | src/components/DataTable.tsx:53 | the reported rows are never more than the records |
| TableSelection.SelectedRowsSpec | src/components/DataTable.tsx:53 | the reported rows are the records of `data`, in their original order, whose identity is selected; with distinct identities their number is the number of selected identities that belong to a record |
| TableSelection.SelectAllReportsAll | src/components/DataTable.tsx:51-53 | with every identity selected, the report is `data` itself |
| DataTable.NextSort | src/components/DataTable.tsx:65-69 | a non-sortable column changes nothing; a sortable one becomes the sort column, ascending when it was not the sort column, the other direction when it was; a sorted table never returns to no sort |
| DataTable.ClicksNeverUnsort | src/components/DataTable.tsx:65-69 | after any series of clicks that starts sorted or contains a sortable column, the table is sorted |
| DataTable.SortCycle | src/components/DataTable.tsx:68 | from no sort, clicks go ascending, descending, ascending; two clicks on the sort column restore the state |
| DataTable.AriaSort | src/components/DataTable.tsx:98-104 | `aria-sort` is "ascending" or "descending" exactly when the column's field is the sort key with that direction, and "none" otherwise |
| DataTable.SortGlyph | src/components/DataTable.tsx:109-111 | a glyph is shown exactly for a sortable column whose header announces a sort, up for "ascending" and down for "descending" |
| DataTable.HeaderAfterClick | src/components/DataTable.tsx:98-111 | after a click on a sortable column its header announces the new direction with the matching glyph, and headers over other fields announce none |
| DataTable.AllChecked | src/components/DataTable.tsx:46 | the header checkbox is checked when the table is selectable, has records, and the selection has as many members as there are records (the definition; see the two lemmas below) |
| DataTable.AllCheckedAfterSelectAll | src/components/DataTable.tsx:46-51 | after "select all" on a non-empty selectable table the header shows checked iff identities are distinct |
| DataTable.AllCheckedBySizeOnly | src/components/DataTable.tsx:46 | a selection of the right size shows "all checked" even when it holds no record's identity |
| DataTable.EmptyText | src/components/DataTable.tsx:25 | the empty-state text is the given `emptyText`, even an empty one, and "No data" when absent (the definition) |
| DataTable.CellOf | src/components/DataTable.tsx:164-166 | a cell passes the field value and the record to the column's formatter when it has one, and otherwise shows the value, or nothing when it is missing (the definition) |
| DataTable.Width | src/components/DataTable.tsx:138 | the number of columns spanned by the loading and empty rows: one per column, plus one for the checkbox column when selectable (the definition; `BodyRows` states where it is used) |
| DataTable.BodyRows | src/components/DataTable.tsx:119-171 | loading gives four placeholder rows of full width; no records gives one row spanning every column with the empty text; otherwise one row per record of the sorted view, numbered from 1, with a checkbox iff selectable, checked iff its identity is selected, and one cell per column |
| DataTable.BodyShowsEveryRecord | src/components/DataTable.tsx:144 | the record rows show every record of `data` exactly as often as it occurs there |
| DataTable.SortedPositionIdentity | src/components/DataTable.tsx:144-158 | for a record without id, the row checkbox uses its sorted position: it can show checked while `onRowSelect` reports no row for that identity |
| DataTable.OtherRecordReported | src/components/DataTable.tsx:144-158 | with two records without `id` sorted ascending, the first row shows the second record but selects identity 0, which reports the first record |
| DataTable.DataTableInstance.constructor | src/components/DataTable.tsx:27-28 | a table mounts with no sort and an empty selection |
| DataTable.DataTableInstance.ReceiveProps | src/components/DataTable.tsx:24-28 | a re-render with new props keeps sort and selection |
| DataTable.DataTableInstance.OnSort | src/components/DataTable.tsx:65-69 | the sort becomes `NextSort` of the previous one; the selection is untouched |
| DataTable.DataTableInstance.ToggleAll | src/components/DataTable.tsx:48-54 | not selectable: nothing happens; otherwise the selection becomes empty when all checked and every identity otherwise, and `onRowSelect`, when supplied, gets the filtered records |
| DataTable.DataTableInstance.ToggleRow | src/components/DataTable.tsx:56-63 | not selectable: nothing happens; otherwise exactly the identity `row.id ?? idx` flips membership, and `onRowSelect`, when supplied, gets the filtered records |
| DataTable.ClickRowCheckbox | src/components/DataTable.tsx:144-158 | in a selectable table, possibly after a header click, a row checkbox starts unchecked, is checked after one click and unchecked after a second |
| DataTable.SelectAllTwice | src/components/DataTable.tsx:46-54 | the first "select all" selects every identity and reports all of `data`; the second clears the selection when identities are distinct and reselects the same set otherwise |
| DataTable.ClickFirstSortedRow | src/components/DataTable.tsx:56-69 | through the handlers: after a header click and a click on "Select row 1", `onRowSelect` receives the record not displayed in that row |
| InputField.InputId | src/components/InputField.tsx:47 | a given id is used as is (even an empty one); otherwise the id is "input-" followed by the automatic id |
| InputField.AutoIdsDistinct | src/components/InputField.tsx:46-47 | instances with different automatic ids and no id prop have different input ids |
| InputField.DescId | src/components/InputField.tsx:48 | the helper id is the input id followed by "-desc" |
| InputField.ErrId | src/components/InputField.tsx:49 | the error id is the input id followed by "-err" |
| InputField.IdsDistinct | src/components/InputField.tsx:47-49 | input, helper and error ids are pairwise different, and different inputs get different helper and error ids |
| InputField.IsInvalid | src/components/InputField.tsx:64 | `isInvalid` is the `invalid` prop or a non-empty error message (the definition; `AriaInvalid` states its use) |
| InputField.InvalidStyled | src/components/InputField.tsx:57 | the invalid style depends on the `invalid` prop alone (the definition) |
| InputField.ErrorWithoutInvalidStyle | src/components/InputField.tsx:57-76 | the invalid style implies `aria-invalid`; an error message without `invalid` sets `aria-invalid` but not the invalid style |
| InputField.AriaInvalid | src/components/InputField.tsx:64-76 | `aria-invalid` is present (and true) exactly when `invalid` holds or the error message is non-empty; it is never false |
| InputField.Messages | src/components/InputField.tsx:119-120 | at most one paragraph; the error, with the alert role, exactly when the error message is non-empty; the helper, without it, exactly when the helper text is non-empty and there is no error |
| InputField.AlertMeansInvalid | src/components/InputField.tsx:64-76 | whenever the alert paragraph is shown the input is marked invalid |
| InputField.DescribedByTokens | src/components/InputField.tsx:77 | the listed ids include the helper id iff helper text is non-empty, and the error id iff the error message is non-empty, and nothing else |
| InputField.JoinTokens | src/components/InputField.tsx:77 | joining no tokens gives the empty string, one token gives itself, and a non-empty first token gives a non-empty result |
| InputField.AriaDescribedBy | src/components/InputField.tsx:77 | the attribute is empty exactly when neither helper text nor error message is given |
| InputField.DescribedByReadsBack | src/components/InputField.tsx:77 | splitting `aria-describedby` at spaces gives back exactly the listed ids when the input id holds no space |
| InputField.MessagesAreDescribed | src/components/InputField.tsx:119-120 | every rendered paragraph's id is listed in `aria-describedby` |
| InputField.DescribedByNamesHiddenHelper | src/components/InputField.tsx:119 | with helper text and an error, `aria-describedby` lists the helper id although no rendered paragraph carries it |
| InputField.ClearShown | src/components/InputField.tsx:90 | the clear button is shown when clearable, not loading, and the value is a non-empty string (the definition) |
| InputField.ShowPasswordToggle | src/components/InputField.tsx:63 | the toggle is asked for and the `type` prop, not the displayed type, is password (the definition) |
| InputField.PasswordToggleShown | src/components/InputField.tsx:107 | the toggle button is rendered when `showPasswordToggle` holds and the field is not loading (the definition) |
| InputField.SpinnerShown | src/components/InputField.tsx:84 | the spinner is shown exactly while loading (the definition; `LoadingSuppressesControls` states its consequences) |
| InputField.LoadingSuppressesControls | src/components/InputField.tsx:84-107 | loading shows the spinner and neither the clear button nor the toggle; the toggle is only shown for the password type |
| InputField.ClearAndToggleTogether | src/components/InputField.tsx:90-107 | a clearable password field with a value, not loading, shows both the clear button and the toggle |
| InputField.ClearEmits | src/components/InputField.tsx:95-100 | clearing calls `onChange` exactly when it is supplied, always with the empty string |
| InputField.ClearingHidesClear | src/components/InputField.tsx:90-100 | a parent that applies the emitted value hides the clear button |
| InputField.NextType | src/components/InputField.tsx:112 | the toggle gives text from password and password from any other type |
| InputField.NextTypeTwice | src/components/InputField.tsx:112 | two toggles restore password or text; email and number go to password, then text |
| InputField.ToggleLabel | src/components/InputField.tsx:110 | the toggle is named "Show password" exactly while masked and "Hide password" otherwise |
| InputField.LabelFor | src/components/InputField.tsx:68 | a label is rendered exactly for a non-empty label text and points at the input id |
| InputField.InputFieldInstance.constructor | src/components/InputField.tsx:51 | the displayed type starts as the `type` prop |
| InputField.InputFieldInstance.ReceiveProps | src/components/InputField.tsx:51 | a re-render keeps the displayed type whatever the new `type` prop |
| InputField.InputFieldInstance.TogglePasswordVisibility | src/components/InputField.tsx:107-112 | a toggle click sets the displayed type to `NextType` of the old one and leaves the props, the value included, unchanged |
| InputField.InputFieldInstance.Clear | src/components/InputField.tsx:95-101 | a clear click passes `ClearEmits`: the empty string to `onChange` iff one is supplied; it changes no state |
| InputField.ToggleTwice | src/components/InputField.tsx:107-112 | a password field is masked, shown as text after one toggle and masked again after a second, and its value is unchanged |
| InputField.ClearControlled | src/components/InputField.tsx:90-101 | a controlled field whose parent applies the cleared value ends with value "" and no clear button |
| InputField.RenderedIds | src/components/InputField.tsx:46-77 | a mounted field without an `id` prop labels and describes its input through the automatic id: the label targets "input-" plus that id, and `aria-describedby` is exactly the helper paragraph's id, that id followed by "-desc" |
| InputField.LateTypeChange | src/components/InputField.tsx:51-112 | a field mounted as text and re-rendered as password shows the toggle but still displays text, with the toggle named "Hide password" |

## Left out

- Markup, Tailwind and `clsx` class strings, icons, padding classes, and the size, variant and disabled styling (`InputField.tsx:53-62`): presentation only. Of the styling, only whether the invalid style applies is modelled.
- `placeholder`, `variant`, `size`, `disabled`, `className`: passed through to the markup with no behaviour of their own.
- React runtime mechanics: `useState`, `useMemo`, `useId`, `forwardRef`, and when re-renders happen. The automatic id is a parameter. Props arrive through `ReceiveProps`. State updates are applied at once.
- The DOM event that the clear button synthesizes (`InputField.tsx:97-98`): only the target value `""` is modelled.
- Ordinary typing into the input: it calls the parent's `onChange` with the browser's value, and nothing in the component depends on it.
- The `render` formatters of columns (`DataTable.tsx:164-166`): they are the caller's code. A cell records that the formatter gets the field value and the record.
- The default cell text (`toString`): a cell holds the value itself, not its string form.
- TableSort.Compare: field values are integers. JavaScript's loose `<`/`>` across strings, numbers and mixed types (`NaN` included) is not modelled.
- DataTable.BodyRows: React keys (`String(id)`) and what React does with duplicate keys are not modelled.
- TableSelection.Identity: string ids are not modelled. Identities are integers, which keeps the collision between a numeric id and a position.
- `aria-busy`, `role`, `scope` and the header checkbox's label: fixed attributes with no logic beyond `loading` and `allChecked`.
- `src/App.tsx`, the story files and the test files are not part of this model.
