/**
 * Rows of the fetched table and the pure predicates applied to them: cell
 * lookup, the search and device-type filters of `filterTable`, the
 * eligibility rule of `checkEditableRows` and the update records built by
 * `saveStatusChanges`.
 */
module Rows {
  import opened Seqs
  import opened Text

  /** A row is the list of its cells' texts, positionally matching the headers. */
  type Row = seq<string>

  /** `row[i]` in JavaScript: `undefined` (None) outside the row. */
  function Lookup(row: Row, i: int): (c: Option<string>)
    ensures c.Some? <==> 0 <= i < |row|
    ensures c.Some? ==> c.value == row[i]
  {
    if 0 <= i < |row| then Some(row[i]) else None
  }

  const DeviceTypeHeader: string := "デバイス種別"
  const StatusHeader: string := "0-4.ステータス"
  const DepositHeader: string := "1-4.ユーザー機の預り有無"
  const IdHeader: string := "拠点管理番号"
  /** The status a row must have to be edited: on loan. */
  const OnLoanStatus: string := "1.貸出中"
  /** The deposit flag a row must have to be edited: the user's machine is held. */
  const DepositHeld: string := "有り"

  // ---------------------------------------------------------------------
  // filterTable

  /** `row.some(cell => cell && cell.toLowerCase().includes(needle))`. */
  function AnyCellContains(row: Row, needle: string): (b: bool)
    ensures b <==> exists i :: 0 <= i < |row| && row[i] != "" && Includes(ToLower(row[i]), needle)
  {
    if row == [] then false
    else if row[0] != "" && Includes(ToLower(row[0]), needle) then true
    else
      var b := AnyCellContains(row[1..], needle);
      assert forall i :: 1 <= i < |row| ==> row[i] == row[1..][i - 1];
      assert b ==> exists i :: 1 <= i < |row| && row[i] != "" && Includes(ToLower(row[i]), needle) by {
        if b {
          var i :| 0 <= i < |row[1..]| && row[1..][i] != "" && Includes(ToLower(row[1..][i]), needle);
          assert row[i + 1] == row[1..][i];
        }
      }
      b
  }

  /** The search filter: rows with some non-empty cell containing the lower-cased search text. */
  function SearchFiltered(rows: seq<Row>, needle: string): seq<Row>
  {
    Filter(rows, (row: Row) => AnyCellContains(row, needle))
  }

  /** The device-type filter: rows whose cell at `column` is exactly `deviceType`. */
  function DeviceFiltered(rows: seq<Row>, column: int, deviceType: string): seq<Row>
  {
    Filter(rows, (row: Row) => Lookup(row, column) == Some(deviceType))
  }

  /** The condition a fetched row must meet to survive `filterTable`. */
  predicate PassesFilter(row: Row, headers: seq<string>, searchValue: string, deviceType: string)
  {
    (searchValue == "" || exists i :: 0 <= i < |row| && row[i] != "" && Includes(ToLower(row[i]), searchValue))
    && (deviceType == "" || DeviceTypeHeader !in headers || Lookup(row, IndexOf(headers, DeviceTypeHeader)) == Some(deviceType))
  }

  /**
   * The rows `filterTable` keeps from the fetched `rows`, given the
   * lower-cased search text `searchValue`: the search filter when
   * `searchValue` is non-empty, then the device-type filter when a device
   * type is chosen and the fetched headers contain the device-type column.
   * The two filters together are one `filter` by `PassesFilter`: every
   * passing row is kept, duplicates included, in fetched order, so the
   * result is a subsequence of the fetched rows holding a row exactly when
   * that row was fetched and passes.
   */
  function FilterRows(rows: seq<Row>, headers: seq<string>, searchValue: string, deviceType: string): (r: seq<Row>)
    ensures r == Filter(rows, (row: Row) => PassesFilter(row, headers, searchValue, deviceType))
    ensures IsSubsequence(r, rows)
    ensures |r| <= |rows|
    ensures forall row :: row in r <==> row in rows && PassesFilter(row, headers, searchValue, deviceType)
  {
    var afterSearch := if searchValue != "" then SearchFiltered(rows, searchValue) else rows;
    var column := IndexOf(headers, DeviceTypeHeader);
    var r := if deviceType != "" && column >= 0 then DeviceFiltered(afterSearch, column, deviceType) else afterSearch;
    var searchPass := (row: Row) => searchValue == "" || AnyCellContains(row, searchValue);
    var devicePass := (row: Row) => deviceType == "" || column < 0 || Lookup(row, column) == Some(deviceType);
    var pass := (row: Row) => PassesFilter(row, headers, searchValue, deviceType);
    SearchStep(rows, searchValue, searchPass);
    DeviceStep(afterSearch, column, deviceType, devicePass);
    FilterFilter(rows, searchPass, devicePass, pass);
    FilterKeeps(rows, pass);
    r
  }

  /** The search stage is a `filter` by `searchPass`, which keeps every row when there is no search text. */
  lemma SearchStep(rows: seq<Row>, needle: string, searchPass: Row -> bool)
    requires forall row :: searchPass(row) == (needle == "" || AnyCellContains(row, needle))
    ensures (if needle != "" then SearchFiltered(rows, needle) else rows) == Filter(rows, searchPass)
  {
    if needle != "" {
      FilterSame(rows, (row: Row) => AnyCellContains(row, needle), searchPass);
    } else {
      FilterKeepsAll(rows, searchPass);
    }
  }

  /** The device stage is a `filter` by `devicePass`, which keeps every row without a device type or column. */
  lemma DeviceStep(rows: seq<Row>, column: int, deviceType: string, devicePass: Row -> bool)
    requires forall row :: devicePass(row) == (deviceType == "" || column < 0 || Lookup(row, column) == Some(deviceType))
    ensures (if deviceType != "" && column >= 0 then DeviceFiltered(rows, column, deviceType) else rows) == Filter(rows, devicePass)
  {
    if deviceType != "" && column >= 0 {
      FilterSame(rows, (row: Row) => Lookup(row, column) == Some(deviceType), devicePass);
    } else {
      FilterKeepsAll(rows, devicePass);
    }
  }

  // ---------------------------------------------------------------------
  // checkEditableRows and saveStatusChanges

  /** A checked row: its `data-row-index` and the row found at that position. */
  datatype SelectedRow = SelectedRow(index: int, data: Row)

  /** A row may be edited when its status cell is on-loan and its deposit cell is held. */
  predicate Editable(row: Row, statusColumn: int, depositColumn: int)
  {
    Lookup(row, statusColumn) == Some(OnLoanStatus) && Lookup(row, depositColumn) == Some(DepositHeld)
  }

  /** The rule as the edit dialog states it: both named columns exist and hold the required values. */
  predicate EligibleUnder(headers: Option<seq<string>>, s: SelectedRow)
  {
    headers.Some? && StatusHeader in headers.value && DepositHeader in headers.value &&
    Lookup(s.data, IndexOf(headers.value, StatusHeader)) == Some(OnLoanStatus) &&
    Lookup(s.data, IndexOf(headers.value, DepositHeader)) == Some(DepositHeld)
  }

  /**
   * `checkEditableRows(selectedRows)` against the headers `currentHeaders`
   * (None when null): one `filter` of the selection by `EligibleUnder`, so
   * nothing without headers or without either column, and otherwise the
   * selected rows meeting the rule, in selection order.
   */
  function CheckEditableRows(headers: Option<seq<string>>, selected: seq<SelectedRow>): (r: seq<SelectedRow>)
    ensures r == Filter(selected, (s: SelectedRow) => EligibleUnder(headers, s))
    ensures headers.None? || StatusHeader !in headers.value || DepositHeader !in headers.value ==> r == []
    ensures IsSubsequence(r, selected)
    ensures forall s :: s in r <==> s in selected && EligibleUnder(headers, s)
  {
    var eligible := (s: SelectedRow) => EligibleUnder(headers, s);
    FilterKeeps(selected, eligible);
    if headers.None? then
      FilterDropsAll(selected, eligible);
      []
    else
      var statusColumn := IndexOf(headers.value, StatusHeader);
      var depositColumn := IndexOf(headers.value, DepositHeader);
      if statusColumn == -1 || depositColumn == -1 then
        FilterDropsAll(selected, eligible);
        []
      else
        FilterSame(selected, (s: SelectedRow) => Editable(s.data, statusColumn, depositColumn), eligible);
        Filter(selected, (s: SelectedRow) => Editable(s.data, statusColumn, depositColumn))
  }

  /** `!changeReason || !changeReason.trim()`: the reason field is missing or blank. */
  function MissingReason(reason: Option<string>): (missing: bool)
    ensures missing <==> reason.None? || IsBlank(reason.value)
  {
    reason.None? || Trim(reason.value) == []
  }

  /** One record of the batch sent to `updateDepositStatus` (the timestamp is left out). */
  datatype StatusUpdate = StatusUpdate(id: Option<string>, newStatus: Option<string>, reason: string)

  /**
   * `editableRows.map(...)`: one record per editable row, carrying its
   * management-number cell (`undefined` when that column or cell is missing),
   * the chosen status and the reason as typed.
   */
  function BuildUpdates(headers: seq<string>, editable: seq<SelectedRow>, newStatus: Option<string>, reason: string): (u: seq<StatusUpdate>)
    ensures |u| == |editable|
    ensures forall i :: 0 <= i < |u| ==>
              u[i].newStatus == newStatus && u[i].reason == reason &&
              u[i].id == Lookup(editable[i].data, IndexOf(headers, IdHeader))
  {
    seq(|editable|, i requires 0 <= i < |editable| =>
      StatusUpdate(Lookup(editable[i].data, IndexOf(headers, IdHeader)), newStatus, reason))
  }

  /** What the save button does: reject a blank reason, do nothing without editable rows, or submit a batch. */
  datatype SaveOutcome = ReasonRequired | NothingToSave | Submit(updates: seq<StatusUpdate>)
}
