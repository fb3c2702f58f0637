# DataTable and helpers: a Dafny model

This project models the table component of a small browser application, plus the
pure helpers from its utility module that have precise, checkable behaviour.

The `DataTable` component keeps three things:

- the full dataset (`data`);
- a visible list derived from it (`filteredData`);
- the sort classes (`sort-asc` and `sort-desc`) on each column header.

It renders the visible list into a table body. That body has either one empty-state row
(`暂无数据`) spanning the columns, or one row per item. A row has one cell per column, plus
an actions cell when `showActions` is on. The actions cell follows the row's kind:

- an initialisation row (`action` is `初始化`) shows `-`;
- a refund or reduction row (`回费`, `减费`) hides every action whose class contains `edit`;
- every other row shows all configured actions.

`setData`, `filter` and `search` always recompute the visible list from the full dataset.
`sortBy` toggles the marker of the first header with the given field and clears the other
sortable headers. It then sorts the visible list in place and re-renders.

The helpers modelled are:

- `color.hexToRgb` and `color.rgbToHex`;
- `string.capitalize`, `string.camelToKebab` and `string.kebabToCamel`;
- `array.unique` and `array.sortByProperty`;
- `validate.isNonEmptyString`.

Layout, one module per file:

- `Wrappers` holds `Option`.
- `JsStrings` holds ASCII case mapping, the `trim` whitespace set, `includes`, the string
  order of `<`, and decimal digits.
- `JsValues` holds the primitive values a row holds, `String(v)`, truthiness, `ToNumber`
  and `<`.
- `Seqs` holds `Array.prototype.filter` and `Reverse`.
- `ArraySort` holds the stable sort both the table and `sortByProperty` rely on.
- `Color`, `StringHelpers` and `ArrayHelpers` hold the helpers.
- `TableView` holds the pure description of what the table shows.
- `DataTableComponent` holds the class `DataTable`. Its methods are proved against the
  `TableView` functions.

A table whose element is missing at construction (`mounted` false) never builds its
header or body. On such a table:

- `render` does nothing;
- `sortBy` and `getSelectedRows` dereference the missing element and throw. The model
  reports this as `thrown`.

`sortBy` and `getSelectedRows` throw a `TypeError` on an unmounted table
(src/js/components/dataTable.js:223 and :290). `sortBy` also acts on a non-sortable header
with the given field (:223-234): it adds the sort class there and sorts the visible list.

## Model

| member | source | states |
|---|---|---|
| DataTableComponent.DataTable.constructor | src/js/components/dataTable.js:4-37 | A new table has an empty dataset, visible list and body, no markers, and the header row of `setupTable` exactly when mounted |
| TableView.Headers | src/js/components/dataTable.js:42-78 | One header per column with its field and sortable flag (`sortable !== false`), then an actions header exactly when `showActions` is on |
| DataTableComponent.DataTable.SetData | src/js/components/dataTable.js:98-102 | The dataset becomes the given rows; the visible list is an element-wise equal copy; the table is re-rendered |
| DataTableComponent.DataTable.Filter | src/js/components/dataTable.js:253-260 | The visible list is the filter of the full dataset (a copy when no function is given), whatever was visible before; dataset and markers unchanged; re-rendered |
| TableView.FilterRowsSelects | src/js/components/dataTable.js:253-260 | Filtering keeps exactly the rows satisfying the predicate, in dataset order, each as many times as it occurs in the dataset |
| DataTableComponent.DataTable.Search | src/js/components/dataTable.js:266-282 | The visible list is the search result over the full dataset, whatever was visible before; dataset and markers unchanged; re-rendered |
| TableView.SearchRowsSelects | src/js/components/dataTable.js:266-282 | A keyword that trims to nothing shows all of the dataset; otherwise exactly the rows where some schema column's lowercased `String(value)` contains the lowercased keyword, in dataset order, each as many times as it occurs in the dataset |
| TableView.SearchIgnoresOtherFields | src/js/components/dataTable.js:274-279 | Changing a property that is not a schema field never changes whether a row matches |
| TableView.MissingFieldMatchesUndef | src/js/components/dataTable.js:276-277 | A row lacking a schema field matches the keyword `undef`, because `String(undefined)` is `undefined` |
| TableView.KeywordMatchedUntrimmed | src/js/components/dataTable.js:267-277 | The keyword passes the blank test trimmed but is matched untrimmed: `"a "` does not match a row holding `"a"` |
| DataTableComponent.FilterThenSearch | src/js/components/dataTable.js:253-282 | A filter followed by a search leaves the same visible list as the search alone |
| TableView.SortTarget | src/js/components/dataTable.js:223-224 | The header `sortBy` acts on is the first with that field, and there is none exactly when no column has it |
| DataTableComponent.DataTable.SortBy | src/js/components/dataTable.js:222-247 | Throws exactly when not mounted, changing nothing. With no header for the field nothing changes. Otherwise the direction is descending exactly when the header has `sort-asc`, the markers are reset and set as `MarksAfterSort` says, the visible list is sorted on the field in that direction, and the table is re-rendered |
| DataTableComponent.DataTable.ClearSortMarks | src/js/components/dataTable.js:229-231 | Both sort classes are removed from every sortable header; the other headers and the rest of the state are unchanged |
| TableView.MarksAfterSortProperties | src/js/components/dataTable.js:226-234 | After a sort the target header carries the new direction's class (alone when sortable), other sortable headers are clear, other non-sortable headers keep theirs, and at most one sortable header is marked |
| TableView.SortableHeaderAlternates | src/js/components/dataTable.js:226-234 | Two sorts on a sortable header alternate ascending and descending |
| TableView.NonSortableHeaderSticks | src/js/components/dataTable.js:226-234 | A non-sortable header is never cleared: once it has `sort-asc`, it carries both classes and every later sort on it is descending |
| DataTableComponent.DataTable.HeaderClick | src/js/components/dataTable.js:83-92 | A header click sorts only when mounted, the `sortable` option is truthy and the column is sortable; the sort acts on the first header with the clicked column's field |
| ArraySort.SortPermutes | src/js/components/dataTable.js:237-244 | The sorted list is a permutation of the list before |
| ArraySort.SortSorted | src/js/components/dataTable.js:237-244 | With values of one comparable kind, the result is non-decreasing (ascending) or non-increasing (descending) on the field |
| ArraySort.SortStable | src/js/components/dataTable.js:237-244 | Rows with tied values keep their previous relative order |
| ArraySort.SortedPermutationUnique | src/js/components/dataTable.js:237-244 | When no two rows tie, only one sorted permutation exists, so the sort result does not depend on the sorting algorithm |
| ArraySort.AscThenDescReverses | src/js/components/dataTable.js:237-244 | With pairwise distinct values of one kind, an ascending sort followed by a descending sort gives exactly the reverse of the ascending order |
| DataTableComponent.SortTwiceReverses | src/js/components/dataTable.js:222-247 | Two `sortBy` calls on a sortable column without `sort-asc` leave the column marked `sort-desc` and the visible list in the reverse of the ascending order |
| TableView.SortExample | src/js/components/dataTable.js:237-244 | Bob (amount 5) and Al (amount 9) sort as Bob, Al ascending and Al, Bob descending |
| TableView.SearchExample | src/js/components/dataTable.js:266-282 | Searching Bob and Al for `al` keeps Al only |
| DataTableComponent.DataTable.Render | src/js/components/dataTable.js:107-216 | Does nothing when not mounted. Otherwise the body becomes `View` of the visible list. `onRenderComplete` fires once exactly when the list is non-empty and the callback is given. Dataset, visible list and markers are unchanged |
| TableView.ViewShape | src/js/components/dataTable.js:113-209 | An empty list renders one placeholder spanning the columns plus one for actions when shown. Otherwise there is one row per item in list order, with the item's id, one cell per column, a highlight exactly for refund and reduction rows, the actions cell of the row-kind rules, and a click handler exactly when `onRowClick` is given |
| DataTableComponent.DataTable.RenderCells | src/js/components/dataTable.js:137-149 | The cells of a row are each column's cell in column order |
| TableView.PlainCellText | src/js/components/dataTable.js:143-146 | A column without `render` shows empty text exactly when the value is falsy, and `String(value)` otherwise |
| TableView.FalsyValuesShowEmpty | src/js/components/dataTable.js:145-145 | `0` and `false` are shown as empty cells |
| DataTableComponent.DataTable.RenderActionCell | src/js/components/dataTable.js:152-200 | The loop over configured actions builds exactly the actions cell `ActionCellOf` describes |
| TableView.ActionRules | src/js/components/dataTable.js:152-199 | An initialisation row shows `-`. A refund or reduction row shows exactly the configured actions whose class lacks `edit`, in configured order and with their multiplicity. Any other row shows all configured actions. Without configured actions the cell is empty |
| TableView.RefundRowHidesEdit | src/js/components/dataTable.js:164-192 | A refund row configured with `btn-edit` and `btn-delete` shows only the delete action |
| DataTableComponent.DataTable.Refresh | src/js/components/dataTable.js:301-303 | Refresh re-renders the current visible list and changes nothing else |
| DataTableComponent.DataTable.GetSelectedRows | src/js/components/dataTable.js:288-296 | Throws exactly when not mounted. Otherwise, for the selected body rows in body order, the first dataset item whose `id` strictly equals the row's `dataset.id` |
| TableView.FindById | src/js/components/dataTable.js:292-292 | The lookup finds the first item of the dataset with an equal id, and finds nothing exactly when no item has one |
| TableView.SelectedItemsFromData | src/js/components/dataTable.js:288-296 | Every collected item is in the dataset and has a string or missing id, and there are at most as many as body rows |
| TableView.NumericIdsNeverSelected | src/js/components/dataTable.js:291-293 | When all ids are numbers, nothing is ever collected |
| TableView.SelectedStringIdFound | src/js/components/dataTable.js:291-293 | A rendered row of an item with a string id resolves to an item of the dataset with that id |
| Color.HexToRgb | src/js/utils/helpers.js:425-432 | Returns channels exactly when the input is an optional `#` followed by six hex digits of either case; each channel is in 0..255 |
| Color.RgbToHexDigits | src/js/utils/helpers.js:435-437 | For channels in 0..255 the result is `#` and six lowercase hex digits, two per channel in r, g, b order |
| Color.RgbRoundTrip | src/js/utils/helpers.js:425-437 | `hexToRgb(rgbToHex(r, g, b))` gives back `(r, g, b)` for channels in 0..255 |
| Color.HexRoundTrip | src/js/utils/helpers.js:425-437 | `rgbToHex` of a successful `hexToRgb(h)` is `#` followed by the six digits of `h` lowercased |
| Color.RgbToHexRedCarry | src/js/utils/helpers.js:435-437 | Out-of-range channels are not rejected: a red channel in 256..511 carries into the dropped leading digit and prints as the red channel 256 lower (a red of 256 prints like a red of 0) |
| StringHelpers.Capitalize | src/js/utils/helpers.js:315-317 | A lowercase ASCII first letter becomes its uppercase letter, any other first character is kept, and the rest of the string is unchanged |
| StringHelpers.CapitalizeIdempotent | src/js/utils/helpers.js:315-317 | Capitalizing twice is capitalizing once, and no character after the first changes |
| StringHelpers.CamelReplaceIsDashBeforeUpper | src/js/utils/helpers.js:320-322 | The regex replacement, whichever alternative matches, puts one `-` before each uppercase letter and changes nothing else |
| StringHelpers.CamelToKebab | src/js/utils/helpers.js:320-322 | The result has no uppercase ASCII letter and is at least as long as the input |
| StringHelpers.CamelToKebabKeepsKebab | src/js/utils/helpers.js:320-322 | An ASCII string without uppercase letters comes back unchanged |
| StringHelpers.KebabToCamelWithoutDashes | src/js/utils/helpers.js:325-327 | A string without `-` comes back unchanged |
| StringHelpers.CamelRoundTrip | src/js/utils/helpers.js:320-327 | For an ASCII string without `-`, `kebabToCamel(camelToKebab(s)) == s` |
| StringHelpers.KebabRoundTrip | src/js/utils/helpers.js:320-327 | For an ASCII string without uppercase letters, `camelToKebab(kebabToCamel(s)) == s`; dashes not before a lowercase letter (as in `mt-4` or `a-`) are left alone both ways |
| ArrayHelpers.UniqueElements | src/js/utils/helpers.js:240-242 | The result contains exactly the input's elements, and none twice |
| ArrayHelpers.UniqueProperties | src/js/utils/helpers.js:240-242 | The result contains exactly the input's elements, each once, ordered by first occurrence |
| ArrayHelpers.SortByPropertyOrders | src/js/utils/helpers.js:262-270 | The result is a permutation of the input. With values of one comparable kind it is ascending for order `asc` and descending for any other order |
| ArrayHelpers.IsNonEmptyStringIff | src/js/utils/helpers.js:21-23 | A value passes exactly when it is a string with at least one non-whitespace character |

## Left out

- Numbers are integers. Floating point, `NaN` values, infinities and `-0` are not modelled. `ToNumber` of a string covers an optional sign followed by decimal digits; every other string form is NaN in the model (decimals, exponents, `0x`, `Infinity`). Two consequences reach search and plain cells, which both go through `JsValues.ToStr`: JavaScript prints a number of magnitude 1e21 or more in exponent form (`String(1e21)` is `1e+21`) where the model prints every digit, and a JavaScript number above 2^53 is not exact where the model's integer is.
- Row properties hold primitive values only. Objects, arrays and functions as property values are not modelled, nor is their `String` form or comparison through `ToPrimitive`.
- Case mapping is ASCII only. Non-ASCII `toLowerCase` and `toUpperCase` are not modelled, including expansions such as `ß` to `SS`. The round-trip lemmas `StringHelpers.CamelRoundTrip`, `StringHelpers.KebabRoundTrip` and `StringHelpers.CamelToKebabKeepsKebab` require ASCII input; the members below state facts about the ASCII mapping for any input.
- StringHelpers.Capitalize and StringHelpers.CapitalizeIdempotent: the length and the unchanged tail hold for the ASCII mapping only; in JavaScript a first character such as `ß` uppercases to two characters.
- StringHelpers.CamelToKebab: "no uppercase letter" means no uppercase ASCII letter; non-ASCII uppercase letters pass through unchanged in the model.
- TableView.SearchRowsSelects and DataTableComponent.DataTable.Search: the lowercasing of values and keyword is the ASCII one, so matches that depend on non-ASCII case folding are not modelled.
- DataTableComponent.DataTable.Search: a keyword that is not a string throws at `keyword.trim()` (src/js/components/dataTable.js:267); the `string` parameter cannot express that case.
- Strings are sequences of code points. The UTF-16 code-unit order of `<` differs for characters outside the Basic Multilingual Plane; that difference is not modelled.
- All DOM work is left out: CSS classes and inline styles, button markup, icons and titles, `innerHTML` parsing, `stopPropagation`, and the console message for a missing element. Which element exists is the constructor's `mounted` parameter.
- Callbacks are outside the model. The action callbacks and `onRowClick` appear only as whether a row or control is clickable. `onRenderComplete` is a call counter. A column's `render` is a pure function returning a string.
- `filter` passes the predicate only the item. Predicates that use the index or the array argument, or that have side effects, are not modelled.
- Options `showFilter`, `showPagination` and `searchable` have no effect in the code and are not modelled.
- DataTableComponent.DataTable.SetData: the dataset is a value, so the aliasing of the caller's array with `data` is not modelled.
- DataTableComponent.DataTable.SortBy: the built-in in-place sort is modelled by assigning the sorted sequence. A field that is not a valid CSS attribute-selector value (one containing a quote, for example) is not modelled.
- ArraySort.SortSorted: for property values of mixed kinds, or `undefined`, the comparator is inconsistent. ECMAScript then leaves the order to the engine, so only the permutation is stated.
- ArrayHelpers.SortByPropertyOrders: the comparator never returns 0. Rows with equal keys are therefore ordered as the model's insertion sort places them; an engine may order them differently.
- ArrayHelpers.Unique: elements are compared by the element type's equality. For row objects, `Set` compares identity, which is not modelled.
- DataTableComponent.DataTable.GetSelectedRows: the `selected` class is applied by code outside the component, so it is a parameter (a set of body row positions).
- Color.HexToRgb and Color.RgbToHexDigits: arguments that are not strings or integers are not modelled. Channels beyond the exact-integer range of doubles are not modelled either.
- The `order` default of `sortByProperty` (`'asc'`) is left to the caller, which passes `"asc"`.
- `src/js/managers/modalManager.js` is not part of this model. It is display plumbing, event listeners and timer-driven toasts.
- `src/js/index.js` is not part of this model. It is application bootstrap and storage hydration.
- The other helpers are not part of this model: `format`, `dom`, `storage`, `time`, the random generators, `shuffle`, `max`, `min`, `average`, the `object` helpers and the other `validate` checks. They rely on floating point, the DOM, storage, timers or randomness. `isEmptyObject`, `isValidId` and `dom.toggle` call another helper through `this` inside an arrow function at module scope, and throw whenever they are called. `object.deepClone` does the same only when it recurses: it returns primitives, `null` and copies of dates without touching `this`, returns `[]` and `{}` for an empty array or object, and throws on a non-empty array or object (src/js/utils/helpers.js:276-289).
