# Metabase sortable table, sort keys, error strings and e-mail check

This project models five small pieces of Metabase's frontend and proves
properties about them in Dafny.

- **Controlled table** (`ControlledTable.tsx`). A stateless table. For each
  column it draws a header: a plain label, or a clickable label with a sort
  icon or spacer. It renders the rows it is given, in order, and shows
  optional pagination controls. It reports header clicks (`onSort`) and page
  clicks (`onPageChange`) to its owner.
- **Self-sorting table** (`Table.tsx`). It holds the sort state
  (`sortColumn`, `sortDirection`) and stores every request the controlled
  table reports. When a column is active it hands down a sorted copy of its
  rows, using a comparator that orders only strings and numbers; otherwise it
  hands down the rows themselves.
- **Caching strategy sort key** (`formatValueForSorting`). It computes the
  value a row of the caching strategy editor sorts by. For a duration
  policy, the first `<digits>h` of the label becomes `Duration ` plus the
  digits zero-padded to width 5.
- **Inactive-field message** (`formatErrorString`). It builds
  `Field a, b is inactive` from a card's inactive-field errors, or gives
  undefined when there are none.
- **E-mail check** (`isEmail`). The embedding SDK's `start` command checks
  e-mail addresses with the regular expression `^\S+@\S+\.\S+$`.

Modules:

- `JsStrings`: JavaScript strings as sequences of UTF-16 code units.
  String `<` is code-unit lexicographic order.
- `Values`: a value read out of a row: a string, a number or anything else.
- `ArraySort`: `Array.prototype.sort` as a stable insertion sort. It is
  given both as a function and as an in-place array method.
- `ControlledTable`: the controlled table.
- `TableSort`: the comparator and the sorted view.
- `Table`: a class holding the sort state.
- `StrategySortKey`: the caching strategy sort key.
- `Troubleshooting`: the inactive-field message.
- `StartCli`: the e-mail check.

Modelling choices:

- A callback is modelled by whether it is supplied and by the value it would
  be called with.
- A cell value is a string, an integer, or `Other`. `Other` covers a missing
  key and every other type.
- `undefined` results are `None`.

## Model

| member | source | states |
|---|---|---|
| ControlledTable.ToggleSort | frontend/src/metabase/common/components/Table/ControlledTable.tsx:113-118 | A header click always requests the clicked column's key. It requests descending exactly when that key is already the ascending sort column; every other state, including another sort column, gives ascending |
| ControlledTable.RepeatedClicksAlternate | frontend/src/metabase/common/components/Table/ControlledTable.tsx:113-118 | Suppose the owner passes each request back. After n ≥ 1 clicks on one header, the table is sorted by that key, never unsorted. The direction alternates and starts ascending unless that column was already the ascending sort |
| ControlledTable.HeaderFor | frontend/src/metabase/common/components/Table/ControlledTable.tsx:56-67 | A header is clickable iff `onSort` is supplied and the column is sortable, and it always shows the column name. An icon (not the spacer) appears iff the name is non-empty and the key equals the sort name. The icon is chevron-up iff the direction is descending |
| ControlledTable.HeaderClick | frontend/src/metabase/common/components/Table/ControlledTable.tsx:56-63 | A click reports a request iff the header is clickable, and the request is the toggled one |
| ControlledTable.Body | frontend/src/metabase/common/components/Table/ControlledTable.tsx:73-77 | One body row per input row, in input order. The row key is the id, and falls back to the position exactly when the id's string is empty |
| ControlledTable.Render | frontend/src/metabase/common/components/Table/ControlledTable.tsx:49-93 | Headers column by column and the rows unchanged. Pagination appears iff `onPageChange` and `page` are both given, with page size 3, the item count and the total |
| ControlledTable.AtMostOneIndicator | frontend/src/metabase/common/components/Table/ControlledTable.tsx:122 | With unique column keys, at most one header shows a sort icon |
| ControlledTable.RenderNeverReorders | frontend/src/metabase/common/components/Table/ControlledTable.tsx:73-77 | The body depends only on the rows: no sort state, page or callback changes it |
| ControlledTable.PageClicks | frontend/src/metabase/common/components/Table/ControlledTable.tsx:88-89 | "Next" reports page + 1 and "previous" reports page − 1, so next then previous returns to the starting page |
| ControlledTable.TestColumnsAreNotClickable | frontend/src/metabase/common/components/Table/Table.unit.spec.tsx:64-77 | A column without `sortable` renders as a plain label and a click reports nothing, even when `onSort` is given |
| JsStrings.LessTransitive | frontend/src/metabase/common/components/Table/Table.tsx:52-54 | String `<` is transitive |
| JsStrings.LessTrichotomous | frontend/src/metabase/common/components/Table/Table.tsx:52-54 | Two distinct strings are always ordered one way or the other |
| JsStrings.LessAsymmetric | frontend/src/metabase/common/components/Table/Table.tsx:52-54 | String `<` is asymmetric |
| ArraySort.SortPermutes | frontend/src/metabase/common/components/Table/Table.tsx:41 | Sorting yields a permutation of its input, for any comparator |
| ArraySort.SortIsStable | frontend/src/metabase/common/components/Table/Table.tsx:41 | If the comparator ties all elements with equal keys, those elements keep their input order in the modelled stable sort |
| ArraySort.SortKeepsTiedElements | frontend/src/metabase/common/components/Table/Table.tsx:41 | If the comparator ties every pair, the output is the input |
| ArraySort.SortSorts | frontend/src/metabase/common/components/Table/Table.tsx:41 | If the comparator is a total preorder on the elements, the output is ordered by it |
| ArraySort.SortInPlace | frontend/src/metabase/common/components/Table/Table.tsx:41 | Sorting an array in place leaves exactly the sort of its old contents |
| TableSort.CompareZero | frontend/src/metabase/common/components/Table/Table.tsx:44-49 | The comparator gives 0 exactly for equal values or when either value is not a string or number. Otherwise it gives −1 or 1 |
| TableSort.CompareSameKind | frontend/src/metabase/common/components/Table/Table.tsx:51-55 | For two strings or two numbers, ascending puts a row no later than another iff its value is not greater. Descending does so iff its value is not smaller |
| TableSort.ComparePreorder | frontend/src/metabase/common/components/Table/Table.tsx:44-55 | On values of one kind, "no later than" is total (of two rows, at least one is no later than the other) and transitive |
| TableSort.SortRowsPermutes | frontend/src/metabase/common/components/Table/Table.tsx:41 | The sorted rows are a permutation of the rows |
| TableSort.SortRowsStable | frontend/src/metabase/common/components/Table/Table.tsx:41-56 | In the modelled stable sort, rows with equal values in the sort column keep their input order |
| TableSort.NothingSortableKeepsOrder | frontend/src/metabase/common/components/Table/Table.tsx:44-49 | If no value in the column is a string or number, the rows keep their input order |
| TableSort.SortOrdersHomogeneousColumn | frontend/src/metabase/common/components/Table/Table.tsx:51-55 | If the column holds only strings or only numbers, ascending values never decrease and descending values never increase |
| Table.PassedSortColumn | frontend/src/metabase/common/components/Table/Table.tsx:71-73 | The sort passed down is undefined iff no column is active. Otherwise it is the state's name and direction |
| Table.SortedView | frontend/src/metabase/common/components/Table/Table.tsx:39-59 | With no active column the rows are returned as given. Otherwise they are sorted by the active column and direction |
| Table.Table.constructor | frontend/src/metabase/common/components/Table/Table.tsx:34-37 | Initially no column is active and the direction is ascending |
| Table.Table.SortState | frontend/src/metabase/common/components/Table/Table.tsx:71-73 | The sort prop is undefined iff the stored column is null or ""; otherwise it carries the stored column and direction |
| Table.Table.OnSort | frontend/src/metabase/common/components/Table/Table.tsx:66-69 | `onSort` overwrites both state fields with the reported name and direction |
| Table.Table.ClickHeader | frontend/src/metabase/common/components/Table/Table.tsx:61-75 | A click on a sortable header stores the toggled request for the sort that was passed down. A non-sortable header leaves the state unchanged |
| Table.Table.SortedRows | frontend/src/metabase/common/components/Table/Table.tsx:39-59 | Sorting a fresh copy of the rows in an array gives exactly the sorted view |
| Table.StoredRequestIsPassedDown | frontend/src/metabase/common/components/Table/Table.tsx:66-73 | A stored request with a non-empty name is passed back down unchanged |
| Table.TableClicksAlternate | frontend/src/metabase/common/components/Table/Table.tsx:66-73 | Repeated clicks on one sortable column with a non-empty key leave the table in the state of the controlled table's alternating fold |
| Table.EmptyKeyNeverSorts | frontend/src/metabase/common/components/Table/Table.tsx:40 | A column with key "" is stored but never active, so every click requests ascending and the rows stay in input order |
| Table.SortedViewPermutes | frontend/src/metabase/common/components/Table/Table.tsx:39-59 | In every state the view is a permutation of the rows |
| Table.TestClickLeavesRowsUnsorted | frontend/src/metabase/common/components/Table/Table.unit.spec.tsx:64-77 | A click on a column without `sortable` on a fresh table reports nothing, and the rows are handed down in input order |
| Table.GreenBeforeBlueAscending | frontend/src/metabase/common/components/Table/Table.tsx:52-54 | With no locale input, a name starting with 緑 sorts ascending before one starting with 青, whatever follows |
| StrategySortKey.RunEndIsLongestRun | enterprise/frontend/src/metabase-enterprise/caching/components/StrategyEditorForQuestionsAndDashboards/utils.tsx:17 | The captured digits form a run that cannot be extended |
| StrategySortKey.MatchAtIsRegexMatch | enterprise/frontend/src/metabase-enterprise/caching/components/StrategyEditorForQuestionsAndDashboards/utils.tsx:17 | A run of digits followed by "h" means the expression matches there, and the captured group ends exactly at that "h" |
| StrategySortKey.FirstMatchIsLeftmost | enterprise/frontend/src/metabase-enterprise/caching/components/StrategyEditorForQuestionsAndDashboards/utils.tsx:17 | The match found is the leftmost one. No match is found only when there is none |
| StrategySortKey.PadStartKeepsDigits | enterprise/frontend/src/metabase-enterprise/caching/components/StrategyEditorForQuestionsAndDashboards/utils.tsx:18 | Padding only prepends zeros up to width 5 and never truncates; five or more digits are kept as they are |
| StrategySortKey.ReplaceChangesIffMatch | enterprise/frontend/src/metabase-enterprise/caching/components/StrategyEditorForQuestionsAndDashboards/utils.tsx:17-20 | A label changes iff the expression matches in it, and a rewritten label is longer |
| StrategySortKey.ReplaceAfterPrefix | enterprise/frontend/src/metabase-enterprise/caching/components/StrategyEditorForQuestionsAndDashboards/utils.tsx:17-20 | In `p + digits + "h" + q` with no digit in `p`, the digits and the "h" become `Duration ` and the padded digits, and `p` and `q` are untouched |
| StrategySortKey.FormatValueForSorting | enterprise/frontend/src/metabase-enterprise/caching/components/StrategyEditorForQuestionsAndDashboards/utils.tsx:9-30 | "policy" gives a key iff there is a label: the label itself for a non-duration strategy, and the label with its first hour count rewritten for a duration strategy. "collection" gives the path, or "" without a collection. Any other column gives the field of that name, or undefined |
| StrategySortKey.DigitOrderIsNumericOrder | enterprise/frontend/src/metabase-enterprise/caching/components/StrategyEditorForQuestionsAndDashboards/utils.tsx:16-19 | For digit strings of equal length, string order is numeric order |
| StrategySortKey.PaddedOrderIsNumericOrder | enterprise/frontend/src/metabase-enterprise/caching/components/StrategyEditorForQuestionsAndDashboards/utils.tsx:16-19 | For runs of at most five digits, padded strings compare as their numbers do, and they are equal iff the numbers are |
| StrategySortKey.DurationKeysFollowHours | enterprise/frontend/src/metabase-enterprise/caching/components/StrategyEditorForQuestionsAndDashboards/utils.tsx:15-20 | Two duration labels with a common digit-free prefix and different hour counts of at most five digits get keys in the order of their hour counts |
| StrategySortKey.DurationPrefixIsText | enterprise/frontend/src/metabase-enterprise/caching/components/StrategyEditorForQuestionsAndDashboards/utils.tsx:19 | The text put before the padded digits is "Duration " |
| StrategySortKey.SixDigitHoursSortFirst | enterprise/frontend/src/metabase-enterprise/caching/components/StrategyEditorForQuestionsAndDashboards/utils.tsx:18 | Past five digits the order breaks: the key of the label "100000h" comes before the key of "99999h" |
| Troubleshooting.FormatErrorString | enterprise/frontend/src/metabase-enterprise/troubleshooting/utils.ts:5-15 | The result is undefined iff no error is an inactive-field error. Otherwise it is `Field ` + the names joined by ", " + ` is inactive` |
| Troubleshooting.NoNamesIffNoInactive | enterprise/frontend/src/metabase-enterprise/troubleshooting/utils.ts:6-10 | The name list is empty iff there is no inactive-field error |
| Troubleshooting.InactiveMembers | enterprise/frontend/src/metabase-enterprise/troubleshooting/utils.ts:6-8 | The filter keeps exactly the inactive-field errors |
| Troubleshooting.InactiveFieldsAreTheInactiveErrors | enterprise/frontend/src/metabase-enterprise/troubleshooting/utils.ts:6-13 | There is one name per inactive-field error, in order, with duplicates kept |
| Troubleshooting.InactiveFieldsAppend | enterprise/frontend/src/metabase-enterprise/troubleshooting/utils.ts:6-13 | The names of concatenated error lists are the concatenated names |
| Troubleshooting.OtherErrorsIgnored | enterprise/frontend/src/metabase-enterprise/troubleshooting/utils.ts:6-8 | Adding errors of other types before or after leaves the message unchanged |
| Troubleshooting.OtherErrorsIgnoredAnywhere | enterprise/frontend/src/metabase-enterprise/troubleshooting/utils.ts:6-13 | Adding or removing errors of other types anywhere in the list leaves the message unchanged |
| Troubleshooting.JoinAppend | enterprise/frontend/src/metabase-enterprise/troubleshooting/utils.ts:11-13 | Joining one more name appends the separator and the name |
| Troubleshooting.JoinLength | enterprise/frontend/src/metabase-enterprise/troubleshooting/utils.ts:11-13 | The joined text has the names' total length plus one separator between each two names |
| Troubleshooting.TwoInactiveFields | enterprise/frontend/src/metabase-enterprise/troubleshooting/utils.ts:5-15 | Two inactive fields around another error give `Field TOTAL, TAX is inactive` |
| StartCli.IsEmailMatchesPattern | enterprise/frontend/src/embedding-sdk/cli/actions/start.ts:25 | The check accepts a string exactly when it has no white space and some "@" at a position ≥ 1 is followed, at least two positions later, by a "." that is not last |
| StartCli.EmailFromParts | enterprise/frontend/src/embedding-sdk/cli/actions/start.ts:25 | Every `x@y.z` with non-empty, white-space-free x, y and z is accepted |
| StartCli.EmailParts | enterprise/frontend/src/embedding-sdk/cli/actions/start.ts:25 | Every accepted string splits as `x@y.z` with non-empty, white-space-free x, y and z |
| StartCli.AcceptsSecondAt | enterprise/frontend/src/embedding-sdk/cli/actions/start.ts:25 | `a@b@c.d` is accepted |
| StartCli.AcceptsExtraDots | enterprise/frontend/src/embedding-sdk/cli/actions/start.ts:25 | `a.b@c.d.e` is accepted |
| StartCli.RejectsEmptyDomain | enterprise/frontend/src/embedding-sdk/cli/actions/start.ts:25 | `a@.c` and `a@.cd` are rejected |
| StartCli.RejectsEmptyTopLevel | enterprise/frontend/src/embedding-sdk/cli/actions/start.ts:25 | `a@b.` and `ab@c.` are rejected |
| StartCli.RejectsEmptyLocalPart | enterprise/frontend/src/embedding-sdk/cli/actions/start.ts:25 | `@b.c` and `@bc.d` are rejected |
| StartCli.RejectsWhiteSpace | enterprise/frontend/src/embedding-sdk/cli/actions/start.ts:25 | A string with a space anywhere is rejected |

## Where the code and its tests disagree

The model follows the code in both cases below.

- **Locale.** The sorting tests pass a `locale` and expect ja-JP order to put
  青 (blue) before 緑 (green)
  (`Table.unit.spec.tsx:147-185`). `Table` never reads a locale: it only
  reaches the DOM through `...rest` (`Table.tsx:32, 74`), and strings are
  compared with plain `<`. `Table.GreenBeforeBlueAscending` shows that 緑
  (U+7DD1) sorts before 青 (U+9752) ascending.
- **Sortable flag.** The test columns carry no `sortable` flag
  (`Table.unit.spec.tsx:64-77`). `ControlledTable` makes a header clickable
  only when `column.sortable` is true (`ControlledTable.tsx:56`).
  `ControlledTable.TestColumnsAreNotClickable` shows that such a header is a
  plain label and a click reports nothing.
- **The two interact.** Because the test columns are not sortable, the
  clicks at `Table.unit.spec.tsx:174-175` change nothing, and both tables
  keep their input order, 青 (blue) first (`Table.TestClickLeavesRowsUnsorted`).
  As written, the code therefore fails the en-US expectation at
  `Table.unit.spec.tsx:179` and meets the ja-JP one at
  `Table.unit.spec.tsx:183`. The code-unit order of
  `Table.GreenBeforeBlueAscending` would only show once the columns are
  sortable.

## Left out

- Rendering is left out: JSX, icons, colours, spacing, `tableProps` and the
  `...rest` props. Only the structure each header and row takes is modelled.
- `PaginationControls` enabling and disabling its buttons is left out. That
  component is not part of this model; only the `page ± 1` callbacks are.
- React state and memoisation are modelled as a class whose fields `OnSort`
  overwrites. `useMemo` caching is left out; the view is recomputed from the
  state.
- Numbers are integers. Floating point, NaN, infinities and −0 are left out.
- A string compared with a number is left out. JavaScript would convert a
  numeric string to a number. The model treats every such comparison as
  NaN: both `<` and `>` are false.
- The engine's choice of sort algorithm is left out. `Array.prototype.sort`
  is modelled by one stable algorithm. For a comparator that is a total
  preorder on the rows (a column of only strings or only numbers), every
  stable sort gives the same output. On mixed columns, real engines may order
  rows differently.
- ArraySort.SortIsStable: stability for every comparator that ties equal
  keys is a property of the modelled insertion sort. `Array.prototype.sort`
  promises stability only for a consistent comparator; for any other it
  leaves the order to the engine.
- TableSort.SortRowsStable: on a column that mixes strings or numbers with
  other values, the table's comparator is not consistent (for "b", a
  missing value and "a" it answers 0, 0 and 1). On such a column, equal-value
  rows keeping their order is a property of the modelled sort only. An
  engine may swap them. On columns of one kind, or with nothing sortable,
  the comparator is consistent and every engine keeps them in order.
- The locale prop is left out, because the code never reads it (see above).
- `getShortStrategyLabel`, `getCollectionPathString` and `_.get` are left out.
  Their results are inputs of `StrategySortKey.Item`: the short label, the
  collection path (absent without a collection), and the fields by name.
  `t` is the identity.
- `StrategySortKey.DurationKeysFollowHours` only covers hour counts of at most
  five digits after a common digit-free prefix. `SixDigitHoursSortFirst`
  shows that longer counts do not sort by number.
- The rest of `start.ts` is left out: prompts, Docker, health polling and
  instance setup are asynchronous I/O.
- `ControlledTable.Body` keys a row by its typed id (`ById`), not by the
  printed `String(row.id)`. Ids `1` and `"1"` share the key "1" in the
  source but get different keys in the model; the model does not capture
  such key collisions, which only affect React's reconciliation.
- The error record is reduced to its `type` and `field`; nothing else
  affects the message.
