/**
  `GSheetOptions` and `GSheetWrapper` of reviewsync/gsheet_wrapper.py: which
  issues a worksheet lists, and which cells receive the update date and the
  overall status of each issue. The worksheet is given as its header row and
  the records below it (one dictionary per row, keyed by header); a cell is a
  (row, column) pair counted from 1, as the sheet counts them.
*/
module GSheet {
  import opened Wrappers
  import opened Applicability
  import opened PyText
  import opened JiraPatches

  /** A sheet cell, both coordinates 1-based. */
  datatype CellId = CellId(row: int, col: int)

  /** The cells to write for one issue; None for a column that is not updated. */
  datatype CellUpdateForIssue = CellUpdateForIssue(issue: string, updateDateCell: Option<CellId>, statusCell: Option<CellId>)

  /** One `update_acell` call. */
  datatype CellWrite = CellWrite(cell: Option<CellId>, value: string)

  /** A worksheet: the first row, then the records `get_all_records` returns. */
  datatype SheetData = SheetData(header: seq<string>, records: seq<map<string, string>>)

  /**
    The command-line options of the sheet integration. The two update flags
    are attributes that exist only when the matching column name is truthy;
    None stands for an attribute that was never set.
  */
  class GSheetOptions {
    const clientSecret: string
    const spreadsheet: string
    const worksheet: string
    const jiraColumn: string
    const updateDateColumn: Option<string>
    const statusColumn: Option<string>
    var doUpdateDate: Option<bool>
    var doUpdateStatus: Option<bool>

    constructor (clientSecret: string, spreadsheet: string, worksheet: string, jiraColumn: string,
                 updateDateColumn: Option<string> := None, statusColumn: Option<string> := None)
      ensures this.clientSecret == clientSecret && this.spreadsheet == spreadsheet
      ensures this.worksheet == worksheet && this.jiraColumn == jiraColumn
      ensures this.updateDateColumn == updateDateColumn && this.statusColumn == statusColumn
      ensures doUpdateDate == (if Truthy(updateDateColumn) then Some(true) else None)
      ensures doUpdateStatus == (if Truthy(statusColumn) then Some(true) else None)
    {
      this.clientSecret := clientSecret;
      this.spreadsheet := spreadsheet;
      this.worksheet := worksheet;
      this.jiraColumn := jiraColumn;
      this.updateDateColumn := updateDateColumn;
      this.statusColumn := statusColumn;
      doUpdateDate := if Truthy(updateDateColumn) then Some(true) else None;
      doUpdateStatus := if Truthy(statusColumn) then Some(true) else None;
    }
  }

  /**
    `find_column_idx_in_header`: the index of the first header entry equal to
    the column name, -1 when there is none (a column name of None is never in
    a header of strings).
  */
  function FindColumnIdxInHeader(header: seq<string>, column: Option<string>): (r: int)
    ensures r == -1 <==> column.None? || column.value !in header
    ensures r != -1 ==> 0 <= r < |header| && header[r] == column.value && column.value !in header[..r]
  {
    match column
    case None => -1
    case Some(name) => IndexOf(header, name)
  }

  /** The value of the Jira column in every record, in row order. */
  function JiraColumnValues(records: seq<map<string, string>>, jiraColumn: string): (issues: seq<string>)
    requires forall i | 0 <= i < |records| :: jiraColumn in records[i]
    ensures |issues| == |records|
    ensures forall i | 0 <= i < |records| :: issues[i] == records[i][jiraColumn]
  {
    if records == [] then []
    else JiraColumnValues(records[..|records| - 1], jiraColumn) + [records[|records| - 1][jiraColumn]]
  }

  /** The cell of record `idx` in a column found at header index `colIdx`, when that column is updated. */
  function CellOf(idx: int, colIdx: Option<int>): Option<CellId> {
    if colIdx.Some? then Some(CellId(idx + 2, colIdx.value + 1)) else None
  }

  /**
    The entries the loop of `fetch` stores, record by record: a record whose
    issue gets at least one cell overwrites any earlier entry for that issue.
    `dateCol` and `statusCol` are the header indexes of the updated columns,
    None for a column that is not updated.
  */
  function CellUpdates(records: seq<map<string, string>>, jiraColumn: string,
                       dateCol: Option<int>, statusCol: Option<int>): map<string, CellUpdateForIssue>
    requires forall i | 0 <= i < |records| :: jiraColumn in records[i]
  {
    if records == [] then map[]
    else
      var idx := |records| - 1;
      var prev := CellUpdates(records[..idx], jiraColumn, dateCol, statusCol);
      var issue := records[idx][jiraColumn];
      var dateCell, statusCell := CellOf(idx, dateCol), CellOf(idx, statusCol);
      if dateCell.Some? || statusCell.Some? then prev[issue := CellUpdateForIssue(issue, dateCell, statusCell)]
      else prev
  }

  /** An issue has an entry exactly when some column is updated and some record lists it. */
  lemma {:induction false} CellUpdatesKeys(records: seq<map<string, string>>, jiraColumn: string,
                                           dateCol: Option<int>, statusCol: Option<int>, issue: string)
    requires forall i | 0 <= i < |records| :: jiraColumn in records[i]
    ensures issue in CellUpdates(records, jiraColumn, dateCol, statusCol)
            <==> (dateCol.Some? || statusCol.Some?) && exists i | 0 <= i < |records| :: records[i][jiraColumn] == issue
  {
    if records != [] {
      var idx := |records| - 1;
      var init := records[..idx];
      CellUpdatesKeys(init, jiraColumn, dateCol, statusCol, issue);
      if exists i | 0 <= i < |records| :: records[i][jiraColumn] == issue {
        var i :| 0 <= i < |records| && records[i][jiraColumn] == issue;
        if i < idx {
          assert init[i][jiraColumn] == issue;
        }
      }
      if exists i | 0 <= i < |init| :: init[i][jiraColumn] == issue {
        var i :| 0 <= i < |init| && init[i][jiraColumn] == issue;
        assert records[i][jiraColumn] == issue;
      }
    }
  }

  /**
    The entry of an issue comes from the last record that lists it: its cells
    sit in that record's sheet row (the header is row 1), in the columns found
    in the header (counted from 1).
  */
  lemma {:induction false} CellUpdatesLastRowWins(records: seq<map<string, string>>, jiraColumn: string,
                                                  dateCol: Option<int>, statusCol: Option<int>, issue: string)
    requires forall i | 0 <= i < |records| :: jiraColumn in records[i]
    requires issue in CellUpdates(records, jiraColumn, dateCol, statusCol)
    ensures exists i | 0 <= i < |records| ::
              && records[i][jiraColumn] == issue
              && (forall j | i < j < |records| :: records[j][jiraColumn] != issue)
              && CellUpdates(records, jiraColumn, dateCol, statusCol)[issue]
                 == CellUpdateForIssue(issue, CellOf(i, dateCol), CellOf(i, statusCol))
  {
    var idx := |records| - 1;
    var init := records[..idx];
    var m := CellUpdates(records, jiraColumn, dateCol, statusCol);
    CellUpdatesKeys(records, jiraColumn, dateCol, statusCol, issue);
    if records[idx][jiraColumn] == issue {
      assert m[issue] == CellUpdateForIssue(issue, CellOf(idx, dateCol), CellOf(idx, statusCol));
    } else {
      var prev := CellUpdates(init, jiraColumn, dateCol, statusCol);
      assert issue in prev && m[issue] == prev[issue];
      CellUpdatesLastRowWins(init, jiraColumn, dateCol, statusCol, issue);
      var i :| 0 <= i < |init| && init[i][jiraColumn] == issue
               && (forall j | i < j < |init| :: init[j][jiraColumn] != issue)
               && prev[issue] == CellUpdateForIssue(issue, CellOf(i, dateCol), CellOf(i, statusCol));
      assert records[i][jiraColumn] == issue;
      assert forall j | i < j < |records| :: records[j][jiraColumn] != issue by {
        forall j | i < j < |records| ensures records[j][jiraColumn] != issue {
          if j < idx {
            assert init[j] == records[j];
          }
        }
      }
    }
  }

  /** One more record adds, or overwrites, the entry for its issue when it gets a cell. */
  lemma CellUpdatesStep(records: seq<map<string, string>>, jiraColumn: string,
                        dateCol: Option<int>, statusCol: Option<int>, idx: int)
    requires 0 <= idx < |records|
    requires forall i | 0 <= i <= idx :: jiraColumn in records[i]
    ensures var issue := records[idx][jiraColumn];
            var cu := CellUpdateForIssue(issue, CellOf(idx, dateCol), CellOf(idx, statusCol));
            CellUpdates(records[..idx + 1], jiraColumn, dateCol, statusCol)
            == if cu.updateDateCell.Some? || cu.statusCell.Some?
               then CellUpdates(records[..idx], jiraColumn, dateCol, statusCol)[issue := cu]
               else CellUpdates(records[..idx], jiraColumn, dateCol, statusCol)
  {
    assert records[..idx + 1][..idx] == records[..idx];
  }

  /** Storing an entry after a merge stores it in the merged-in map. */
  lemma MergeThenUpdate<K, V>(a: map<K, V>, b: map<K, V>, k: K, v: V)
    ensures (a + b)[k := v] == a + b[k := v]
  {
  }

  /** The `update_acell` calls for one issue's cells: the date first, then the status. */
  function WritesFor(cu: CellUpdateForIssue, doDate: bool, doStatus: bool, dateStr: string,
                     status: PatchOverallStatus): seq<CellWrite>
  {
    (if doDate then [CellWrite(cu.updateDateCell, dateStr)] else [])
    + (if doStatus then [CellWrite(cu.statusCell, status.status)] else [])
  }

  /**
    The date cell receives the date string and the status cell the status
    text, each only when its column is updated, and nothing else is written.
  */
  lemma WritesForContents(cu: CellUpdateForIssue, doDate: bool, doStatus: bool, dateStr: string,
                          status: PatchOverallStatus)
    ensures var ws := WritesFor(cu, doDate, doStatus, dateStr, status);
            && (CellWrite(cu.updateDateCell, dateStr) in ws <== doDate)
            && (CellWrite(cu.statusCell, status.status) in ws <== doStatus)
            && |ws| == (if doDate then 1 else 0) + (if doStatus then 1 else 0)
            && forall w | w in ws :: w == CellWrite(cu.updateDateCell, dateStr) || w == CellWrite(cu.statusCell, status.status)
  {
  }

  /** What an update consults of the client: whether the sheet was fetched, the cell map and the two flags. */
  datatype SheetState = SheetState(fetched: bool, cells: map<string, CellUpdateForIssue>,
                                   doDate: Option<bool>, doStatus: Option<bool>)

  /**
    The outcome of `update_issue_with_results` in a given client state: the
    `AttributeError` of a sheet never fetched, no write for an issue without
    cells, the `AttributeError` of a flag never set, or the writes.
  */
  function UpdateOutcome(st: SheetState, issue: string, dateStr: string, status: PatchOverallStatus)
    : (r: Result<seq<CellWrite>>)
    ensures !st.fetched ==> r == Failure(AttributeError("sheet"))
    ensures st.fetched && issue !in st.cells ==> r == Success([])
    ensures st.fetched && issue in st.cells ==>
              && (r.Failure? <==> st.doDate.None? || st.doStatus.None?)
              && (st.doDate.None? ==> r == Failure(AttributeError("do_update_date")))
              && (st.doDate.Some? && st.doStatus.None? ==> r == Failure(AttributeError("do_update_status")))
              && (r.Success? ==> r.value == WritesFor(st.cells[issue], st.doDate.value, st.doStatus.value, dateStr, status))
  {
    if !st.fetched then Failure(AttributeError("sheet"))
    else if issue !in st.cells then Success([])
    else if st.doDate.None? then Failure(AttributeError("do_update_date"))
    else if st.doStatus.None? then Failure(AttributeError("do_update_status"))
    else Success(WritesFor(st.cells[issue], st.doDate.value, st.doStatus.value, dateStr, status))
  }

  /**
    The sheet client. `sheet` is None until `fetch` has run (the attribute does
    not exist before); `issueToCellUpdate` maps each issue to its cells.
  */
  class GSheetWrapper {
    const options: GSheetOptions
    var issueToCellUpdate: map<string, CellUpdateForIssue>
    var sheet: Option<SheetData>

    /** The client state an update depends on. */
    function State(): SheetState
      reads this, options
    {
      SheetState(sheet.Some?, issueToCellUpdate, options.doUpdateDate, options.doUpdateStatus)
    }

    constructor (options: GSheetOptions)
      ensures this.options == options && issueToCellUpdate == map[] && sheet == None
    {
      this.options := options;
      issueToCellUpdate := map[];
      sheet := None;
    }

    /**
      `GSheetWrapper(options)`: `ValueError` for an empty client secret; the
      credentials and the authorised client are not modelled.
    */
    static method New(options: GSheetOptions) returns (r: Result<GSheetWrapper>)
      ensures r.Failure? <==> options.clientSecret == ""
      ensures r.Failure? ==> r.error.ValueError?
      ensures r.Success? ==> fresh(r.value) && r.value.options == options
                             && r.value.issueToCellUpdate == map[] && r.value.sheet == None
    {
      if options.clientSecret == "" {
        r := Failure(ValueError("Client secret should be specified!"));
        return;
      }
      var w := new GSheetWrapper(options);
      r := Success(w);
    }

    /**
      `fetch` on the worksheet `data`: switches off the update of a column the
      header lacks, checks the first record for the Jira column, then walks the
      records, collecting their issues and the cells of each issue.
    */
    method Fetch(data: SheetData) returns (r: Result<seq<string>>)
      modifies this, options
      ensures var dateIdx := FindColumnIdxInHeader(data.header, options.updateDateColumn);
              options.doUpdateDate == if dateIdx < 0 then Some(false) else old(options.doUpdateDate)
      ensures var statusIdx := FindColumnIdxInHeader(data.header, options.statusColumn);
              options.doUpdateStatus == if statusIdx < 0 then Some(false) else old(options.doUpdateStatus)
      ensures r.Success? <==>
                && (forall i | 0 <= i < |data.records| :: options.jiraColumn in data.records[i])
                && (data.records != [] ==> options.doUpdateDate.Some? && options.doUpdateStatus.Some?)
      ensures data.records != [] && options.jiraColumn !in data.records[0]
              ==> r == Failure(ValueError("Jira column was not found in received data"))
      ensures data.records != [] && options.jiraColumn in data.records[0] && options.doUpdateDate.None?
              ==> r == Failure(AttributeError("do_update_date"))
      ensures data.records != [] && options.jiraColumn in data.records[0] && options.doUpdateDate.Some?
                && options.doUpdateStatus.None?
              ==> r == Failure(AttributeError("do_update_status"))
      ensures r.Failure? ==> sheet == old(sheet)
      ensures r.Success? ==>
                && r.value == JiraColumnValues(data.records, options.jiraColumn)
                && sheet == Some(data)
                && issueToCellUpdate == old(issueToCellUpdate) + CellUpdates(data.records, options.jiraColumn,
                     if options.doUpdateDate == Some(true) then Some(FindColumnIdxInHeader(data.header, options.updateDateColumn)) else None,
                     if options.doUpdateStatus == Some(true) then Some(FindColumnIdxInHeader(data.header, options.statusColumn)) else None)
    {
      var updateDateColIdx := FindColumnIdxInHeader(data.header, options.updateDateColumn);
      if updateDateColIdx < 0 {
        options.doUpdateDate := Some(false);
      }
      var statusColIdx := FindColumnIdxInHeader(data.header, options.statusColumn);
      if statusColIdx < 0 {
        options.doUpdateStatus := Some(false);
      }

      var rows := data.records;
      var jiraCol := options.jiraColumn;
      if |rows| > 0 && jiraCol !in rows[0] {
        assert jiraCol !in data.records[0];
        r := Failure(ValueError("Jira column was not found in received data"));
        return;
      }

      var stored := StoreRowCells(rows, jiraCol, options.doUpdateDate, options.doUpdateStatus,
                                  updateDateColIdx, statusColIdx);
      if stored.Failure? {
        r := Failure(stored.error);
        return;
      }
      sheet := Some(data);
      r := Success(stored.value);
    }

    /**
      The loop of `fetch` over the records: collects each record's issue and,
      when a column is updated, stores the cells of the issue in that record's
      row, a later record of the same issue overwriting an earlier one.
      `doDate` and `doStatus` are the two update flags as the loop reads them.
    */
    method StoreRowCells(rows: seq<map<string, string>>, jiraCol: string, doDate: Option<bool>, doStatus: Option<bool>,
                         dateColIdx: int, statusColIdx: int) returns (r: Result<seq<string>>)
      requires rows != [] ==> jiraCol in rows[0]
      modifies this`issueToCellUpdate
      ensures r.Success? <==>
                && (forall i | 0 <= i < |rows| :: jiraCol in rows[i])
                && (rows != [] ==> doDate.Some? && doStatus.Some?)
      ensures rows != [] && doDate.None? ==> r == Failure(AttributeError("do_update_date"))
      ensures rows != [] && doDate.Some? && doStatus.None? ==> r == Failure(AttributeError("do_update_status"))
      ensures r.Success? ==>
                && r.value == JiraColumnValues(rows, jiraCol)
                && issueToCellUpdate == old(issueToCellUpdate) + CellUpdates(rows, jiraCol,
                     if doDate == Some(true) then Some(dateColIdx) else None,
                     if doStatus == Some(true) then Some(statusColIdx) else None)
    {
      ghost var dateCol := if doDate == Some(true) then Some(dateColIdx) else None;
      ghost var statusCol := if doStatus == Some(true) then Some(statusColIdx) else None;
      var issues: seq<string> := [];
      var idx := 0;
      while idx < |rows|
        invariant 0 <= idx <= |rows|
        invariant idx > 0 ==> doDate.Some? && doStatus.Some?
        invariant forall i | 0 <= i < idx :: jiraCol in rows[i]
        invariant issues == JiraColumnValues(rows[..idx], jiraCol)
        invariant issueToCellUpdate == old(issueToCellUpdate) + CellUpdates(rows[..idx], jiraCol, dateCol, statusCol)
      {
        var row := rows[idx];
        if jiraCol !in row {
          r := Failure(KeyError(jiraCol));
          return;
        }
        var issue := row[jiraCol];
        assert rows[..idx + 1][..idx] == rows[..idx];
        issues := issues + [issue];

        var updateDateCellId, statusCellId := None, None;
        match doDate {
          case None =>
            r := Failure(AttributeError("do_update_date"));
            return;
          case Some(on) =>
            if on {
              updateDateCellId := Some(CellId(idx + 2, dateColIdx + 1));
            }
        }
        match doStatus {
          case None =>
            r := Failure(AttributeError("do_update_status"));
            return;
          case Some(on) =>
            if on {
              statusCellId := Some(CellId(idx + 2, statusColIdx + 1));
            }
        }
        assert updateDateCellId == CellOf(idx, dateCol) && statusCellId == CellOf(idx, statusCol);
        CellUpdatesStep(rows, jiraCol, dateCol, statusCol, idx);
        if updateDateCellId.Some? || statusCellId.Some? {
          MergeThenUpdate(old(issueToCellUpdate), CellUpdates(rows[..idx], jiraCol, dateCol, statusCol),
                          issue, CellUpdateForIssue(issue, updateDateCellId, statusCellId));
          issueToCellUpdate := issueToCellUpdate[issue := CellUpdateForIssue(issue, updateDateCellId, statusCellId)];
        }
        idx := idx + 1;
      }
      assert rows[..idx] == rows;
      r := Success(issues);
    }

    /**
      `update_issue_with_results`: the cell writes for one issue, or the
      `AttributeError` of a sheet that was never fetched or of an update flag
      that was never set. An issue without cells gets no write.
    */
    method UpdateIssueWithResults(issue: string, dateStr: string, status: PatchOverallStatus)
      returns (r: Result<seq<CellWrite>>)
      ensures r == UpdateOutcome(State(), issue, dateStr, status)
    {
      if sheet.None? {
        r := Failure(AttributeError("sheet"));
        return;
      }
      if issue !in issueToCellUpdate {
        r := Success([]);
        return;
      }
      var cu := issueToCellUpdate[issue];
      var writes: seq<CellWrite> := [];
      match options.doUpdateDate {
        case None =>
          r := Failure(AttributeError("do_update_date"));
          return;
        case Some(on) =>
          if on {
            writes := writes + [CellWrite(cu.updateDateCell, dateStr)];
          }
      }
      match options.doUpdateStatus {
        case None =>
          r := Failure(AttributeError("do_update_status"));
          return;
        case Some(on) =>
          if on {
            writes := writes + [CellWrite(cu.statusCell, status.status)];
          }
      }
      assert writes == WritesFor(cu, options.doUpdateDate.value, options.doUpdateStatus.value, dateStr, status);
      r := Success(writes);
    }
  }
}
