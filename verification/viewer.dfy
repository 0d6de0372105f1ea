/**
 * The table engine's module-level state (spreadsheet-viewer-functions.js,
 * lines 4-9) as one object, and the handlers that update it: loading a
 * fetched sheet, changing the page size, sorting, paging, filtering, and the
 * batch status edit.
 *
 * A remote fetch becomes a parameter holding its result; the update request
 * sent by the save button becomes a returned value.
 */
module Viewer {
  import opened Seqs
  import opened Text
  import opened Rows
  import opened Sorting
  import opened Pagination

  /** The result of `getSpreadsheetData`: either part may be missing (null). */
  datatype FetchResult = FetchResult(data: Option<seq<Row>>, headers: Option<seq<string>>)

  /** A row drawn in the table, tagged with the `data-row-index` of its checkbox. */
  datatype TaggedRow = TaggedRow(index: nat, row: Row)

  /** What `filterTable` reads before it fetches: the lower-cased search text and the device type. */
  datatype FilterRequest = FilterRequest(searchValue: string, deviceType: string)

  /** How the filter's success handler ends: with a TypeError, or by reporting the counts. */
  datatype FilterOutcome = Failed | Shown(filtered: nat, fetched: nat)

  /**
   * The filter's success handler throws before it changes anything: the
   * search filter needs the fetched rows, the device filter needs the
   * fetched headers, and, when they hold the device-type column, the rows.
   */
  predicate FailsBeforeUpdate(request: FilterRequest, result: FetchResult)
  {
    || (request.searchValue != "" && result.data.None?)
    || (request.deviceType != "" &&
        (result.headers.None? || (IndexOf(result.headers.value, DeviceTypeHeader) >= 0 && result.data.None?)))
  }

  /**
   * The two filters of the filter's success handler, applied to the fetched
   * result: `failed` when one of them throws; otherwise the rows that pass,
   * or None when the result has no rows and no filter touched them.
   */
  method ApplyFilters(request: FilterRequest, result: FetchResult) returns (failed: bool, filtered: Option<seq<Row>>)
    ensures failed <==> FailsBeforeUpdate(request, result)
    ensures !failed ==> (filtered.None? <==> result.data.None?)
    ensures !failed && result.data.Some? ==>
              filtered == Some(FilterRows(result.data.value, result.headers.GetOr([]), request.searchValue, request.deviceType))
  {
    filtered := result.data;
    if request.searchValue != "" {
      if filtered.None? {
        return true, None;
      }
      filtered := Some(SearchFiltered(filtered.value, request.searchValue));
    }
    if request.deviceType != "" {
      if result.headers.None? {
        return true, None;
      }
      var column := IndexOf(result.headers.value, DeviceTypeHeader);
      if column >= 0 {
        if filtered.None? {
          return true, None;
        }
        filtered := Some(DeviceFiltered(filtered.value, column, request.deviceType));
      }
    }
    failed := false;
  }

  /**
   * `createTableRow` looks up the header of every cell of the row. A cell
   * with no header (any cell when there are no headers, or one past the
   * last header) makes the lookup or the `includes` call on it throw.
   */
  predicate RowDrawable(row: Row, headers: Option<seq<string>>)
  {
    |row| == 0 || (headers.Some? && |row| <= |headers.value|)
  }

  /**
   * `displayCurrentPage` on page 1 draws the first `itemsPerPage` rows and
   * completes exactly when every one of them can be drawn.
   */
  predicate FirstPageDrawable(rows: seq<Row>, headers: Option<seq<string>>, itemsPerPage: int)
  {
    forall k :: 0 <= k < |rows| && k < itemsPerPage ==> RowDrawable(rows[k], headers)
  }

  /**
   * Filtering never breaks the drawing: when every fetched row fits the
   * headers, the first page of the rows that pass the filters can be drawn.
   */
  lemma {:induction false} FilteredPageDrawable(rows: seq<Row>, headers: seq<string>, searchValue: string, deviceType: string, itemsPerPage: int)
    requires forall k :: 0 <= k < |rows| ==> RowDrawable(rows[k], Some(headers))
    ensures FirstPageDrawable(FilterRows(rows, headers, searchValue, deviceType), Some(headers), itemsPerPage)
  {
    var r := FilterRows(rows, headers, searchValue, deviceType);
    forall k | 0 <= k < |r| && k < itemsPerPage
      ensures RowDrawable(r[k], Some(headers))
    {
      assert r[k] in r;
      var j :| 0 <= j < |rows| && rows[j] == r[k];
    }
  }

  /** What the status edit dialog is set up with. */
  datatype EditDialog = EditDialog(editable: seq<SelectedRow>, selectedCount: nat, canSave: bool)

  class TableViewer {
    /** `currentData`: null until a sheet is loaded. */
    var currentData: array?<Row>
    /** `currentHeaders`. */
    var currentHeaders: Option<seq<string>>
    /** 1-based page shown. */
    var currentPage: int
    var itemsPerPage: int
    /** Column of the last sort, -1 when unsorted. */
    var sortColumn: int
    var sortDirection: Direction

    /**
     * The page size is positive and the current page is the first one or an
     * existing page of the loaded rows.
     */
    ghost predicate Valid()
      reads this
    {
      && 1 <= itemsPerPage
      && 1 <= currentPage
      && (currentPage == 1 || (currentData != null && currentPage <= TotalPages(currentData.Length, itemsPerPage)))
    }

    /** The initial values of the module-level variables. */
    constructor ()
      ensures Valid()
      ensures currentData == null && currentHeaders == None
      ensures currentPage == 1 && itemsPerPage == 50
      ensures sortColumn == -1 && sortDirection == Asc
    {
      currentData := null;
      currentHeaders := None;
      currentPage := 1;
      itemsPerPage := 50;
      sortColumn := -1;
      sortDirection := Asc;
    }

    /**
     * The `refreshData` success handler followed by `displayData`: the
     * fetched rows and headers replace the current ones and the page and
     * sort state are reset. The first page is drawn (`shown`) exactly when
     * both the rows and the headers are present and every row on it fits
     * the headers; otherwise the drawing throws part way.
     */
    method Load(result: FetchResult) returns (shown: bool)
      requires Valid()
      modifies this
      ensures Valid()
      ensures result.data.None? <==> currentData == null
      ensures result.data.Some? ==> fresh(currentData) && currentData[..] == result.data.value
      ensures currentHeaders == result.headers
      ensures currentPage == 1 && sortColumn == -1 && sortDirection == Asc
      ensures itemsPerPage == old(itemsPerPage)
      ensures shown <==> result.data.Some? && result.headers.Some? &&
                         FirstPageDrawable(result.data.value, result.headers, itemsPerPage)
    {
      match result.data {
        case Some(rows) =>
          currentData := new Row[|rows|](i requires 0 <= i < |rows| => rows[i]);
        case None =>
          currentData := null;
      }
      currentHeaders := result.headers;
      currentPage := 1;
      sortColumn := -1;
      sortDirection := Asc;
      shown := result.data.Some? && result.headers.Some? &&
               FirstPageDrawable(result.data.value, result.headers, itemsPerPage);
    }

    /** The page-size selector: the new size applies and the first page is shown. */
    method SetPageSize(size: int)
      requires Valid() && size >= 1
      modifies this
      ensures Valid()
      ensures itemsPerPage == size && currentPage == 1
      ensures currentData == old(currentData) && currentHeaders == old(currentHeaders)
      ensures sortColumn == old(sortColumn) && sortDirection == old(sortDirection)
    {
      itemsPerPage := size;
      currentPage := 1;
    }

    /**
     * `sortTable(col)`: nothing happens before a sheet is loaded. Otherwise a
     * click on the sorted column flips the direction and a click on another
     * column sorts it ascending; the rows are permuted in place so that each
     * is in order with the next, and a column of only numbers or only text
     * ends up sorted.
     */
    method SortTable(col: int)
      requires Valid()
      modifies this, currentData
      ensures Valid()
      ensures currentData == old(currentData)
      ensures currentHeaders == old(currentHeaders)
      ensures currentPage == old(currentPage) && itemsPerPage == old(itemsPerPage)
      ensures old(currentData) == null ==> sortColumn == old(sortColumn) && sortDirection == old(sortDirection)
      ensures old(currentData) != null ==>
                && sortColumn == col
                && sortDirection == (if old(sortColumn) == col then old(sortDirection).Flip() else Asc)
                && SortedFrom(old(currentData[..]), currentData[..], col, sortDirection)
    {
      if currentData == null {
        return;
      }
      var data := currentData;
      ghost var before := data[..];
      var dir := if sortColumn == col then sortDirection.Flip() else Asc;
      SortRows(data, col, dir);
      assert SortedFrom(before, data[..], col, dir);
      sortColumn, sortDirection := col, dir;
    }

    /**
     * `goToPage(page)`: the page changes only when a sheet is loaded and
     * `page` is one of its pages; with no rows there is no page to go to.
     */
    method GoToPage(page: int)
      requires Valid()
      modifies this
      ensures Valid()
      ensures currentData != null && 1 <= page <= TotalPages(currentData.Length, itemsPerPage) ==> currentPage == page
      ensures !(currentData != null && 1 <= page <= TotalPages(currentData.Length, itemsPerPage)) ==>
                currentPage == old(currentPage)
      ensures currentData == old(currentData) && currentHeaders == old(currentHeaders)
      ensures itemsPerPage == old(itemsPerPage)
      ensures sortColumn == old(sortColumn) && sortDirection == old(sortDirection)
    {
      if currentData == null {
        return;
      }
      var totalPages := TotalPages(currentData.Length, itemsPerPage);
      if page < 1 || page > totalPages {
        return;
      }
      currentPage := page;
    }

    /**
     * The rows `displayCurrentPage` draws (None before a sheet is loaded):
     * the rows of the current page, in order, each tagged with its position
     * in `currentData`. The window holds at most one page of rows, and it is
     * empty only when the table is.
     */
    method CurrentWindow() returns (w: Option<seq<TaggedRow>>)
      requires Valid()
      ensures w.None? <==> currentData == null
      ensures w.Some? ==> |w.value| <= itemsPerPage
      ensures w.Some? ==> forall k :: 0 <= k < |w.value| ==>
                w.value[k].index < currentData.Length && w.value[k].row == currentData[w.value[k].index] &&
                OnPage(w.value[k].index, currentPage, itemsPerPage)
      ensures w.Some? ==> forall i :: 0 <= i < currentData.Length && OnPage(i, currentPage, itemsPerPage) ==>
                TaggedRow(i, currentData[i]) in w.value
      ensures w.Some? ==> forall k, l :: 0 <= k < l < |w.value| ==> w.value[k].index < w.value[l].index
      ensures w.Some? && currentData.Length > 0 ==> w.value != []
    {
      if currentData == null {
        return None;
      }
      var bounds := PageSlice(currentData.Length, currentPage, itemsPerPage);
      var start, end := bounds.0, bounds.1;
      var rows: seq<TaggedRow> := [];
      for k := start to end
        invariant |rows| == k - start
        invariant forall m :: 0 <= m < |rows| ==> rows[m] == TaggedRow(start + m, currentData[start + m])
      {
        rows := rows + [TaggedRow(k, currentData[k])];
      }
      forall i | 0 <= i < currentData.Length && OnPage(i, currentPage, itemsPerPage)
        ensures TaggedRow(i, currentData[i]) in rows
      {
        assert rows[i - start] == TaggedRow(i, currentData[i]);
      }
      if currentData.Length > 0 {
        if currentPage == 1 {
          assert TotalPages(currentData.Length, itemsPerPage) >= 1;
        }
        ExistingPageIsNonEmpty(currentData.Length, currentPage, itemsPerPage);
      }
      return Some(rows);
    }

    /**
     * `filterTable` up to the fetch it sends: nothing happens before a sheet
     * is loaded; otherwise the lower-cased search text and the device type
     * are read now, and the sheet is fetched again.
     */
    method FilterTable(searchText: string, deviceType: string) returns (request: Option<FilterRequest>)
      ensures request.None? <==> currentData == null
      ensures request.Some? ==> request.value.searchValue == ToLower(searchText) && request.value.deviceType == deviceType
    {
      if currentData == null {
        return None;
      }
      return Some(FilterRequest(ToLower(searchText), deviceType));
    }

    /**
     * The success handler of the fetch sent by `filterTable`. It has no guard
     * of its own. It fails, changing nothing, when a filter it applies finds
     * no rows or no headers. When the result has no rows and no filter
     * touched them, `currentData` becomes null and page 1 is current before
     * the count report fails. Otherwise the fetched rows that pass both
     * filters replace `currentData`, in fetched order, and page 1 is drawn
     * with the current headers; when that drawing throws the counts are
     * never reported, and otherwise the counts (filtered, fetched) are.
     * Headers and sort state are left as they were.
     */
    method FilterResponse(request: FilterRequest, result: FetchResult) returns (outcome: FilterOutcome)
      requires Valid()
      modifies this
      ensures Valid()
      ensures FailsBeforeUpdate(request, result) ==>
                outcome.Failed? && currentData == old(currentData) && currentPage == old(currentPage)
      ensures !FailsBeforeUpdate(request, result) && result.data.None? ==>
                outcome.Failed? && currentData == null && currentPage == 1
      ensures !FailsBeforeUpdate(request, result) && result.data.Some? ==>
                var rows, headers := result.data.value, result.headers.GetOr([]);
                && fresh(currentData)
                && currentData[..] == FilterRows(rows, headers, request.searchValue, request.deviceType)
                && IsSubsequence(currentData[..], rows)
                && (forall row :: row in currentData[..] <==> row in rows && PassesFilter(row, headers, request.searchValue, request.deviceType))
                && currentPage == 1
                && (outcome.Shown? <==> FirstPageDrawable(currentData[..], currentHeaders, itemsPerPage))
                && (outcome.Shown? ==> outcome == Shown(currentData.Length, |rows|) && outcome.filtered <= outcome.fetched)
      ensures currentHeaders == old(currentHeaders) && itemsPerPage == old(itemsPerPage)
      ensures sortColumn == old(sortColumn) && sortDirection == old(sortDirection)
    {
      var failed, filtered := ApplyFilters(request, result);
      if failed {
        return Failed;
      }
      currentPage := 1;
      match filtered {
        case None =>
          currentData := null;
          return Failed;
        case Some(rows) =>
          currentData := new Row[|rows|](i requires 0 <= i < |rows| => rows[i]);
          assert currentData[..] == rows;
          if !FirstPageDrawable(rows, currentHeaders, itemsPerPage) {
            return Failed;
          }
          return Shown(|rows|, |result.data.value|);
      }
    }

    /** The rows whose checkboxes carry the positions `checked`, read from `currentData`. */
    function Selected(checked: seq<int>): (s: seq<SelectedRow>)
      requires currentData != null && forall k :: 0 <= k < |checked| ==> 0 <= checked[k] < currentData.Length
      reads this, currentData
      ensures |s| == |checked|
      ensures forall k :: 0 <= k < |s| ==> s[k].index == checked[k] && s[k].data == currentData[checked[k]]
    {
      var data := currentData;
      seq(|checked|, k requires 0 <= k < |checked| reads data => SelectedRow(checked[k], data[checked[k]]))
    }

    /**
     * `editSelectedStatus` with the checked positions: no dialog when nothing
     * is checked; otherwise the dialog lists the editable rows among those
     * selected and enables saving exactly when there is one.
     */
    method EditSelectedStatus(checked: seq<int>) returns (dialog: Option<EditDialog>)
      requires checked != [] ==> currentData != null
      requires currentData != null ==> forall k :: 0 <= k < |checked| ==> 0 <= checked[k] < currentData.Length
      ensures checked == [] <==> dialog.None?
      ensures dialog.Some? ==>
                && dialog.value.selectedCount == |checked|
                && dialog.value.editable == CheckEditableRows(currentHeaders, Selected(checked))
                && (forall s :: s in dialog.value.editable <==> s in Selected(checked) && EligibleUnder(currentHeaders, s))
                && |dialog.value.editable| <= |checked|
                && (dialog.value.canSave <==> exists s :: s in Selected(checked) && EligibleUnder(currentHeaders, s))
    {
      if checked == [] {
        return None;
      }
      var selected := Selected(checked);
      var editable := CheckEditableRows(currentHeaders, selected);
      if editable != [] {
        assert editable[0] in editable;
      }
      return Some(EditDialog(editable, |checked|, |editable| > 0));
    }

    /**
     * `saveStatusChanges` with the chosen status, the typed reason (None when
     * the field is missing) and the checked positions: a missing or blank
     * reason is refused; with no editable row nothing is sent; otherwise one
     * update per editable row, in selection order, carrying the row's
     * management number, the chosen status and the reason as typed.
     */
    method SaveStatusChanges(newStatus: Option<string>, reason: Option<string>, checked: seq<int>) returns (outcome: SaveOutcome)
      requires checked != [] ==> currentData != null
      requires currentData != null ==> forall k :: 0 <= k < |checked| ==> 0 <= checked[k] < currentData.Length
      ensures outcome.ReasonRequired? <==> reason.None? || IsBlank(reason.value)
      ensures outcome.NothingToSave? <==>
                reason.Some? && !IsBlank(reason.value) &&
                (checked == [] || forall s :: s in Selected(checked) ==> !EligibleUnder(currentHeaders, s))
      ensures outcome.Submit? ==>
                var editable := CheckEditableRows(currentHeaders, Selected(checked));
                && currentHeaders.Some?
                && |outcome.updates| == |editable| > 0
                && (forall s :: s in editable <==> s in Selected(checked) && EligibleUnder(currentHeaders, s))
                && forall k :: 0 <= k < |outcome.updates| ==>
                     outcome.updates[k] == StatusUpdate(Lookup(editable[k].data, IndexOf(currentHeaders.value, IdHeader)), newStatus, reason.value)
    {
      if MissingReason(reason) {
        return ReasonRequired;
      }
      if checked == [] {
        return NothingToSave;
      }
      var selected := Selected(checked);
      var editable := CheckEditableRows(currentHeaders, selected);
      if |editable| == 0 {
        return NothingToSave;
      }
      assert editable[0] in editable;
      return Submit(BuildUpdates(currentHeaders.value, editable, newStatus, reason.value));
    }
  }
}

