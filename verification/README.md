# Spreadsheet viewer table engine in Dafny

This project models the client-side table engine of the spreadsheet viewer
(`spreadsheet-viewer-functions.js`). The engine keeps the rows fetched for a
location and data type in module-level state. On that state it:

- sorts the rows in place by a clicked column;
- shows them one page at a time, with a list of page links;
- filters them by a search text and a device type;
- lets the user batch-edit the status of the selected rows that are on loan
  and whose user machine is held.

It also contains small helpers: grouping the location list by region, the
status badge, the icon and colour lookups, and a cap of three notifications
on screen.

The module-level variables become the class `Viewer.TableViewer`. The loaded
rows are an `array` that `SortTable` permutes in place. Each event handler is
a method, and its contract states the handler's new state. Remote calls
(`getSpreadsheetData`, `updateDepositStatus`) are not performed:

- a fetch result is a parameter of the handler that receives it;
- the update batch the save button would send is the method's result.

The pure parts are functions in their own modules:

- `Text`: JavaScript string operations;
- `Rows`: the row predicates and filters;
- `Sorting`: the comparator and the sort;
- `Pagination`: page arithmetic and the page-link list;
- `Helpers`: the small helpers.

The modules import one another, and `Seqs` holds `Option`, `filter` and the
subsequence relation.

Some behaviours of the code that are easy to get wrong:

- the change reason is sent as typed, not trimmed;
- a missing status or deposit column makes no row editable; it is not an error;
- the page count is `Math.ceil(length / itemsPerPage)`, so an empty table has
  0 pages and `goToPage` then refuses every page;
- `getPageNumbers` lists a single hidden page instead of `...`. For example,
  page 5 of 10 gives `1, 2, 3, 4, 5, 6, 7, ..., 10`;
- filtering checks for loaded data and reads the search text and device type
  when it is requested. It then fetches the sheet again, and the success
  handler, which has no guard of its own, filters the fresh rows. It keeps
  the headers and the sort column/direction as they were, and it does not
  re-sort;
- the sort comparator ties two rows only when both keys are numbers of equal
  value or the keys are the same text. `Array.prototype.sort` keeps tied rows
  in order only for a consistent comparator, and this one is consistent only
  on a numbers-only or text-only column. On a column mixing numbers and text
  the comparator is not transitive, so the final order, including the order
  of tied rows, is up to the JavaScript engine. There the model's insertion
  sort keeps neighbours in order and tied rows in their order, which the code
  itself does not promise;
- the checkboxes carry positions in `currentData` (lines 440-448), and the
  edit dialog and the save button read the rows at those positions again
  (lines 820, 938). Every redraw empties the table body (line 431) and draws
  fresh, unticked checkboxes, so a sort (line 555), a page change (line 763)
  or a filter (line 609) clears the ticks. Only a filter response without
  rows leaves the old ticks in place: drawing stops at line 414 while
  `currentData` is null, and the edit dialog then fails at line 820. The
  model does not track ticks; the checked positions are a parameter.

## Model

| member | source | states |
|---|---|---|
| Viewer.TableViewer.constructor | spreadsheet-viewer-functions.js:4-9 | Nothing is loaded, the first page is current, 50 rows per page, unsorted and ascending. |
| Viewer.TableViewer.Load | spreadsheet-viewer-functions.js:302-307 | The fetched rows and headers replace the current ones, and page and sort state are reset. The first page is drawn exactly when both rows and headers are present and every row on it has no more cells than there are headers (lines 349-366, 453-461). The page size is kept. |
| Viewer.TableViewer.SetPageSize | spreadsheet-viewer-functions.js:42-45 | The new page size applies and the first page becomes current. Data, headers and sort state are unchanged. |
| Viewer.TableViewer.SortTable | spreadsheet-viewer-functions.js:522-556 | No effect before a sheet is loaded. A second click on the same column flips the direction, and any other column sorts ascending. The rows are a permutation of the old rows, each in order with its successor, and fully sorted when the column is all numbers or all text. The sort is stable: the rows tying with any row keep their relative order. Page, page size and headers are kept. |
| Viewer.TableViewer.GoToPage | spreadsheet-viewer-functions.js:756-763 | The page changes exactly when a sheet is loaded and the page lies in 1..ceil(rows/size). Otherwise nothing changes. |
| Viewer.TableViewer.CurrentWindow | spreadsheet-viewer-functions.js:413-424 | The drawn rows are exactly the rows on the current page, in order. Each is tagged with its global index (lines 433-434). There are at most `itemsPerPage` of them, and they are non-empty whenever the table is. |
| Viewer.TableViewer.FilterTable | spreadsheet-viewer-functions.js:578-585 | No request before a sheet is loaded. Otherwise the request carries the lower-cased search text and the device type, read when the filter is requested. |
| Viewer.ApplyFilters | spreadsheet-viewer-functions.js:586-605 | The handler's filters fail exactly when the search needs missing rows, or the device filter needs missing headers, or it needs missing rows once the headers have the device-type column. Otherwise the result is missing exactly when the fetched rows are, and is the fetched rows passing both filters. |
| Viewer.TableViewer.FilterResponse | spreadsheet-viewer-functions.js:585-612 | A failing filter changes nothing. With no rows fetched and no filter applied, the data becomes null, page 1 is current and the count report fails. Otherwise the fetched rows that pass both filters replace the data, in fetched order and with duplicates kept (`FilterRows`), and a row is kept exactly when it passes. Page 1 becomes current and is drawn with the current headers. The counts (kept ≤ fetched) are reported exactly when that drawing succeeds, i.e. every row on the page has no more cells than there are headers (lines 609-612, 453-461). Headers, page size and sort state are kept. |
| Viewer.FilteredPageDrawable | spreadsheet-viewer-functions.js:589-609 | When every fetched row fits the headers, the first page of the filtered rows can always be drawn. |
| Viewer.TableViewer.Selected | spreadsheet-viewer-functions.js:816-822 | One selected row per checked index, in checkbox order, carrying that index and the row at that position. |
| Viewer.TableViewer.EditSelectedStatus | spreadsheet-viewer-functions.js:811-833 | No dialog when nothing is checked. Otherwise the dialog lists exactly the eligible selected rows and the selection count. Saving is enabled exactly when some selected row is eligible (lines 916-919). |
| Viewer.TableViewer.SaveStatusChanges | spreadsheet-viewer-functions.js:923-960 | A missing or blank reason is refused (lines 927-931). Nothing is sent when no selected row is eligible. Otherwise one update per eligible row, in selection order, carries the row's management number, the chosen status and the untrimmed reason. |
| Sorting.SortRows | spreadsheet-viewer-functions.js:534-549 | After sorting with the column comparator, the array is a permutation of its old contents and every row is in order with its successor. Rows that tie keep their relative order. A numbers-only or text-only column ends up sorted. |
| Sorting.SortBy | spreadsheet-viewer-functions.js:534 | For an antisymmetric comparator, the array is permuted and each neighbouring pair compares ≤ 0. When tying is an equivalence, the rows tying with any given row stay in their old order (stability). |
| Sorting.Key | spreadsheet-viewer-functions.js:535-536 | The sort key is the cell at the column when the row has one, and the empty text otherwise. |
| Sorting.Compare | spreadsheet-viewer-functions.js:534-549 | The comparator returns 0 exactly when both keys are numbers of equal value, or the keys are the same text, in either direction. |
| Sorting.ComparatorTiesAgree | spreadsheet-viewer-functions.js:534-549 | Tying under the comparator is an equivalence, even on a mixed column. This is what the model's stability proof needs; the code promises stable order only on a numbers-only or text-only column. |
| Sorting.TiedRowsKeepOrder | spreadsheet-viewer-functions.js:534-549 | Sorting `["a","1"], ["a","2"]` by the first column may not swap the two tied rows. |
| Sorting.ReverseSorted | spreadsheet-viewer-functions.js:543-548 | Read backwards, a sequence sorted in one direction is sorted in the other. |
| Sorting.SortedUnique | spreadsheet-viewer-functions.js:534-549 | Two sorted arrangements of the same rows, none of them tying, are identical. |
| Sorting.ClickTwiceReverses | spreadsheet-viewer-functions.js:526-549 | On a numbers-only or text-only column without tied rows, a second click on the header exactly reverses the order of the first sort. |
| Sorting.CompareAntisymmetric | spreadsheet-viewer-functions.js:534-549 | Swapping the two rows negates the comparator's result. |
| Sorting.CompareFlip | spreadsheet-viewer-functions.js:543-548 | Descending order negates the ascending comparison. |
| Sorting.InOrderTransitive | spreadsheet-viewer-functions.js:542-548 | On keys that are all numbers or all text, the comparator's order is transitive. |
| Sorting.SortedFromAdjacent | spreadsheet-viewer-functions.js:534-549 | On a numbers-only or text-only column, neighbours being in order implies the whole sequence is sorted. |
| Sorting.NumericColumnOrder | spreadsheet-viewer-functions.js:542-543 | A sorted numbers-only column is in ascending (descending) order of the parsed values. |
| Sorting.TextColumnOrder | spreadsheet-viewer-functions.js:547-548 | A sorted text-only column is in ascending (descending) string order. |
| Sorting.NumbersCompareByValue | spreadsheet-viewer-functions.js:539-543 | "9" sorts before "10" because both parse as numbers, although "10" < "9" as text. |
| Sorting.MixedColumnCycle | spreadsheet-viewer-functions.js:539-548 | On a column mixing numbers and text the comparator is not transitive: "3" ≤ " 5" ≤ "-" ≤ "3" while "3" > "-". |
| Text.Trim | spreadsheet-viewer-functions.js:927 | `trim` gives a contiguous slice of the input with only whitespace before and after it. The result is empty exactly for a text made only of whitespace. Otherwise it neither starts nor ends with whitespace, and a text without whitespace at its ends is returned unchanged. |
| Rows.MissingReason | spreadsheet-viewer-functions.js:927 | The save handler's reason test holds exactly when the reason field is missing or made only of whitespace. |
| Text.ToLower | spreadsheet-viewer-functions.js:581 | Lower-casing keeps the length and maps each character on its own. |
| Text.Includes | spreadsheet-viewer-functions.js:592 | `includes` holds exactly when the needle occurs at some position. |
| Text.IndexOf | spreadsheet-viewer-functions.js:839-840 | Returns the first position of the header, or -1 exactly when the header is absent. |
| Text.StrCompare | spreadsheet-viewer-functions.js:547 | The string comparison returns -1, 0 or 1, and 0 exactly for equal strings. |
| Text.StrCompareAntisymmetric | spreadsheet-viewer-functions.js:547 | Comparing b with a negates comparing a with b. |
| Text.StrCompareTransitive | spreadsheet-viewer-functions.js:547 | The string order is transitive. |
| Text.ParseDigits | spreadsheet-viewer-functions.js:539-540 | `parseFloat` of leading whitespace and then digits is the value of the digits. |
| Text.ParseNumber | spreadsheet-viewer-functions.js:539-540 | `parseFloat` gives a number only when the text contains a decimal digit. A text without digits is NaN. |
| Text.ParseDecimal | spreadsheet-viewer-functions.js:539-540 | Whitespace, an optional sign, then digits, a point and digits (either run may be empty, not both), followed by neither a digit nor, without a fraction, a point, parse to the value of the digits, negated after a minus sign. An exponent after the digits is not recognised (see the `Text.ParseNumber` line under Left out). |
| Text.ParseNotANumber | spreadsheet-viewer-functions.js:539-540 | When whitespace and an optional sign are followed by neither a digit nor a point and a digit, `parseFloat` gives NaN. With `ParseDecimal` this covers every text. |
| Rows.Lookup | spreadsheet-viewer-functions.js:535-536 | A cell read gives the cell exactly when the index lies inside the row, and `undefined` otherwise. |
| Rows.AnyCellContains | spreadsheet-viewer-functions.js:591-593 | True exactly when some non-empty cell, lower-cased, contains the search text. |
| Rows.FilterRows | spreadsheet-viewer-functions.js:589-605 | The two filter stages together are one `filter` of the fetched rows by the combined search and device-type condition. Every passing row is kept, duplicates included, in fetched order. So the result is a subsequence of the fetched rows, no longer than them, holding a row exactly when it was fetched and passes. |
| Rows.CheckEditableRows | spreadsheet-viewer-functions.js:836-849 | The result is one `filter` of the selection by the dialog's rule: the status and deposit columns exist, the status is on-loan and the deposit is held. So no headers, or a missing column, gives no rows, and otherwise the result is the order-preserving subsequence of exactly the eligible selected rows. |
| Rows.BuildUpdates | spreadsheet-viewer-functions.js:952-960 | One update per editable row, in order, each with the row's management-number cell (`undefined` if missing), the chosen status and the reason. |
| Seqs.FilterIsSubsequence | spreadsheet-viewer-functions.js:590 | `filter` keeps an order-preserving subsequence. |
| Seqs.FilterMembership | spreadsheet-viewer-functions.js:590 | An element is kept by `filter` exactly when it occurs in the input and satisfies the predicate. |
| Seqs.FilterFilter | spreadsheet-viewer-functions.js:589-605 | Filtering twice in a row is one filter by the conjunction of the two predicates. |
| Seqs.FilterSwap | spreadsheet-viewer-functions.js:534 | Exchanging two neighbours of which at most one passes leaves the filtered sequence unchanged. This is the step behind stability. |
| Pagination.TotalPages | spreadsheet-viewer-functions.js:422 | The page count is 0 exactly for an empty table. |
| Pagination.TotalPagesBounds | spreadsheet-viewer-functions.js:422 | The pages hold every row, and the last page is not empty. |
| Pagination.PageSlice | spreadsheet-viewer-functions.js:416-418 | The clamped slice bounds hold at most one page of rows, and a row lies inside them exactly when it lies on the page. |
| Pagination.RowOnExactlyOnePage | spreadsheet-viewer-functions.js:416-422 | Every row lies on exactly one page, and that page is between 1 and the page count. |
| Pagination.ExistingPageIsNonEmpty | spreadsheet-viewer-functions.js:416-422 | A page between 1 and the page count shows at least one row. |
| Pagination.GetPageNumbers | spreadsheet-viewer-functions.js:728-753 | The list is empty for no pages. Otherwise it starts at page 1 and ends at the last page. A page is listed exactly when it is first, last, within 2 of the current page, or the single page between two such pages. Consecutive numbers differ by 1, a `...` stands between pages at least 3 apart, and the numbers strictly increase. |
| Pagination.KeptPages | spreadsheet-viewer-functions.js:734-738 | The first loop keeps exactly the first page, the last page and the pages within 2 of the current one, in increasing order. |
| Pagination.InsertGaps | spreadsheet-viewer-functions.js:740-750 | The second loop keeps the first and last kept pages at the ends and yields a well-spaced list. The listed pages are the kept ones plus each single page missing between two kept ones. |
| Pagination.WellSpacedIsIncreasing | spreadsheet-viewer-functions.js:740-750 | A well-spaced page list strictly increases. |
| Pagination.PageNumbersExample | spreadsheet-viewer-functions.js:728-753 | Page 5 of 10 gives exactly `1, 2, 3, 4, 5, 6, 7, ..., 10`. |
| Helpers.RegionOf | spreadsheet-viewer-functions.js:251 | A location's group is its region, or "その他" when the region is empty. It is never empty. |
| Helpers.FirstAppearancesSpec | spreadsheet-viewer-functions.js:248-258 | The region list names each occurring region once and no other. |
| Helpers.GroupLocationsByRegion | spreadsheet-viewer-functions.js:248-258 | Regions are listed in order of first appearance. Each region's group holds exactly its locations, in list order, and is non-empty. A group exists exactly for the listed regions. |
| Helpers.StatusBadge | spreadsheet-viewer-functions.js:1088-1106 | No badge for an empty status. Otherwise the first matching rule gives active (貸出中), then pending (保管中/待機中), then inactive (故障/廃棄), else default. |
| Helpers.EditableRowIsActive | spreadsheet-viewer-functions.js:836-849 | A row the status dialog may edit always shows the active badge. |
| Helpers.SummaryIconClass | spreadsheet-viewer-functions.js:179-187 | A known category gets its icon, and any other gets the folder icon. |
| Helpers.SummaryColorClass | spreadsheet-viewer-functions.js:190-198 | A known category gets its colour, and any other gets "secondary". |
| Helpers.NotificationIcon | spreadsheet-viewer-functions.js:1047-1055 | A known type gets its own icon, an unknown type gets the info icon, and the icon is always one of the four. |
| Helpers.NotificationArea.Show | spreadsheet-viewer-functions.js:1006-1044 | With three notifications on screen the oldest is removed (lines 1009-1011). The new one is appended with its icon, and at most three stay on screen. |
| Helpers.NotificationArea.Dismiss | spreadsheet-viewer-functions.js:1038-1044 | Removing one notification keeps the others in order and keeps the cap. |

## Left out

- Everything that builds or reads the page's markup is not modelled: table headers, rows, checkboxes, sort icons, the pagination bar, the modal dialogs, alerts and focus. Checkbox positions are parameters instead.
- Remote calls (`getSpreadsheetData`, `updateDepositStatus`, `getLocationList`, data types) and their failure handlers are not modelled. Fetch results are parameters, and the update batch is a result.
- localStorage, the last-update clock, the `timestamp` of each update record, debouncing and all timers are not modelled.
- Sorting.Compare: `parseFloat` is modelled for leading whitespace, an optional sign and `digits[.digits]` or `.digits`. Exponents and `Infinity` are not recognised, and values are exact reals rather than doubles.
- Text.ParseNumber: exponents (`1e3`), `Infinity` and double rounding are not modelled; the digits stop at `e`, and values are exact reals.
- Text.StrCompare: `localeCompare(…, 'ja')` is modelled as code-point lexicographic order, not locale collation.
- Text.ToLower: only ASCII letters are lowered, not the full Unicode case mapping.
- Sorting.SortBy: `Array.prototype.sort`'s algorithm is implementation-defined. It is modelled as an insertion sort. The code guarantees a sorted, stable result only on a numbers-only or text-only column, where the comparator is consistent. On a mixed column the engine fixes neither the final order nor the order of tied rows; the neighbour order and stability proved there hold for the insertion sort only.
- Viewer.TableViewer.SetPageSize: requires the parsed page size to be at least 1. `parseInt` of a non-numeric option (NaN) is not modelled; the select only offers positive sizes.
- Viewer.TableViewer.EditSelectedStatus: requires every checked index to lie inside `currentData`, as the rendered checkboxes guarantee. Indices left over from an earlier render are not modelled.
- Viewer.TableViewer.SaveStatusChanges: same requirement on the checked indices. The alert, button state and post-save refresh are not modelled.
- Cells are modelled as strings; `cell.toString()` on numbers and dates is not modelled.
- `result` passed to the success handlers is never null in the model. Its `data` and `headers` may each be missing: the filter handler models the TypeError this causes as a `Failed` outcome (lines 590, 599, 612), and `Load` draws no table.
- Helpers.SummaryIconClass: keys inherited from `Object.prototype` (such as `constructor`) are treated as unknown categories; `iconMap['constructor']` would be a function. No call site passes such a category.
- Helpers.SummaryColorClass: likewise, `colorMap['constructor']` (line 197) would be a function, not "secondary"; such keys are treated as unknown categories.
- Helpers.NotificationIcon: likewise, `icons['constructor']` (line 1054) would be a function, which the contract's "always one of the four icons" excludes; only the four known types and other plain strings are modelled, as the call sites pass.
- Helpers.GroupLocationsByRegion: a region named after an inherited key is not modelled. `constructor`, `toString` or `__proto__` makes `grouped[region]` truthy at line 252, so `push` throws a TypeError at line 255; the model treats every region as an ordinary key.
- Helpers.GroupLocationsByRegion: the region order is first appearance. `Object.entries` lists integer-like keys first, and that is not modelled.
- Helpers.NotificationArea.Show: the fade animation, the HTML of the message and the duration are not modelled. A timer expiry or a close click is modelled as `Dismiss`.
