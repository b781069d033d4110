/** The interface side of the duplicate-filename checker
    (file_duplicate_checker.py): the rows of the result tree with the text
    of their locations cell, the saved full information per row, the
    status text, the `scanning` flag, and sorting by a clicked column.
    Widgets, dialogs and the clipboard are not modelled; the tree is its
    list of rows in display order. */
module DuplicateChecker {
  import opened Text
  import opened Sorting
  import opened DuplicateScan

  datatype Column = FileNameColumn | CountColumn | LocationsColumn
  datatype SortOrder = Ascending | Descending

  /** One row of the result tree: its item id and its three cells. */
  datatype Row = Row(id: nat, filename: FileName, count: nat, locations: string)

  // ----- The locations cell -----

  /** `f"...等{n - 3}个位置"`: how many paths are not shown. */
  function MoreText(hidden: nat): string
  {
    "...等" + NatToString(hidden) + "个位置"
  }

  /** The locations cell of `_display_results` (lines 322-326): the first
      three paths joined by "; ", then a note of how many more there are. */
  function PathText(paths: seq<Dir>): string
  {
    if |paths| > 3 then Join(paths[..3], "; ") + "; " + MoreText(|paths| - 3)
    else Join(paths, "; ")
  }

  /** The cell can be read back: split at ';' it gives the shown paths
      (all but the first with the blank of the separator in front) and,
      exactly when there are more than three paths, a last piece naming how
      many were left out. */
  lemma PathTextParts(paths: seq<Dir>)
    requires |paths| >= 1
    requires forall i :: 0 <= i < |paths| ==> ';' !in paths[i]
    ensures var parts := Split(PathText(paths), ';');
      var shown := if |paths| > 3 then 3 else |paths|;
      && |parts| == (if |paths| > 3 then 4 else |paths|)
      && parts[0] == paths[0]
      && (forall i :: 1 <= i < shown ==> parts[i] == " " + paths[i])
      && (|paths| > 3 ==> parts[3] == " " + MoreText(|paths| - 3))
  {
    var shown := if |paths| > 3 then 3 else |paths|;
    var listed := paths[..shown];
    var pieces := if |paths| > 3 then listed + [MoreText(|paths| - 3)] else listed;
    if |paths| > 3 {
      JoinSnoc(listed, "; ", MoreText(|paths| - 3));
      assert ';' !in NatToString(|paths| - 3);
    } else {
      assert listed == paths;
    }
    assert [';'] + " " == "; ";
    JoinWithPadding(pieces, ';', " ");
    var spaced := [pieces[0]] + PadAll(pieces[1..], " ");
    forall i | 0 <= i < |spaced| ensures ';' !in spaced[i] {
      if i > 0 {
        assert spaced[i] == " " + pieces[i];
      }
    }
    SplitJoin(spaced, ';');
  }

  /** The row `_display_results` inserts for one duplicate (lines 329-330). */
  function MakeRow(id: nat, entry: (FileName, seq<Dir>)): Row
  {
    Row(id, entry.0, |entry.1|, PathText(entry.1))
  }

  /** The rows inserted for `items`, with item ids from `firstId` on. */
  function RowsFor(items: seq<(FileName, seq<Dir>)>, firstId: nat): (r: seq<Row>)
    ensures |r| == |items|
    ensures forall i :: 0 <= i < |items| ==> r[i] == MakeRow(firstId + i, items[i])
  {
    if items == [] then [] else RowsFor(items[..|items| - 1], firstId) + [MakeRow(firstId + |items| - 1, items[|items| - 1])]
  }

  /** `full_file_info` after the rows for `items` were inserted into it. */
  function InfoFor(items: seq<(FileName, seq<Dir>)>, firstId: nat): (m: map<nat, (FileName, seq<Dir>)>)
    ensures forall id :: id in m <==> firstId <= id < firstId + |items|
    ensures forall i :: 0 <= i < |items| ==> m[firstId + i] == items[i]
  {
    if items == [] then map[]
    else InfoFor(items[..|items| - 1], firstId)[firstId + |items| - 1 := items[|items| - 1]]
  }

  /** The insertion loop of `_display_results`: the rows and the saved
      information for `items`, with item ids from `firstId` on. */
  method InsertRows(items: seq<(FileName, seq<Dir>)>, firstId: nat)
    returns (added: seq<Row>, saved: map<nat, (FileName, seq<Dir>)>)
    ensures added == RowsFor(items, firstId)
    ensures saved == InfoFor(items, firstId)
  {
    saved := map[];
    added := [];
    var id := firstId;
    var i := 0;
    while i < |items|
      invariant i <= |items| && id == firstId + i
      invariant added == RowsFor(items[..i], firstId)
      invariant saved == InfoFor(items[..i], firstId)
    {
      var entry := items[i];
      assert items[..i + 1][..i] == items[..i];
      added := added + [MakeRow(id, entry)];
      saved := saved[id := entry];
      id := id + 1;
      i := i + 1;
    }
    assert items[..i] == items;
  }

  /** The status text after a completed scan (line 333). */
  function SummaryText(total: nat, found: nat): string
  {
    "扫描完成。总共扫描了 " + NatToString(total) + " 个文件，发现 " + NatToString(found) + " 个重复的文件名。"
  }

  const PermissionFailedText: string := "扫描失败：权限不足"
  const ScanFailedText: string := "扫描失败，请重试"

  /** The status text the worker leaves once it ends: the totals after a
      completed scan (line 333), the text of the `except` branch that
      caught the walk's exception (lines 308 and 312), and no change after
      a cancel or a failed count, which only reset the controls (lines
      258-260, 273-275 and 284-286). */
  function OutcomeStatus(o: ScanOutcome): (r: Option<string>)
    ensures r.None? <==> o.ScanCancelled? || o.CountError?
    ensures o.ScanError? ==> StartsWith(r.value, "扫描失败") && (r.value == PermissionFailedText <==> o.permission)
    ensures o.Found? ==> r.Some? && r.value != PermissionFailedText && r.value != ScanFailedText
  {
    match o
    case ScanCancelled => None
    case CountError => None
    case ScanError(permission) =>
      assert PermissionFailedText[4] != ScanFailedText[4];
      Some(if permission then PermissionFailedText else ScanFailedText)
    case Found(duplicates, total) =>
      assert SummaryText(total, |duplicates|)[2] != PermissionFailedText[2] && PermissionFailedText[2] == ScanFailedText[2];
      Some(SummaryText(total, |duplicates|))
  }

  // ----- Sorting by a column -----

  /** The sort state after a click on `col` (lines 444-448). */
  function NextSort(column: Option<Column>, order: SortOrder, col: Column): (r: (Option<Column>, SortOrder))
    ensures r.0 == Some(col)
  {
    if column == Some(col) then (column, if order == Ascending then Descending else Ascending)
    else (Some(col), Ascending)
  }

  /** A click on another column sorts ascending; clicking the sorted column
      again flips the order, and twice restores it. */
  lemma NextSortToggles(column: Option<Column>, order: SortOrder, col: Column)
    ensures column != Some(col) ==> NextSort(column, order, col).1 == Ascending
    ensures column == Some(col) ==> NextSort(column, order, col).1 != order
    ensures var (c1, o1) := NextSort(column, order, col);
      NextSort(c1, o1, col) == (Some(col), if column == Some(col) then order else Descending)
  {
  }

  /** `int(self.result_tree.set(k, "count"))`: the count cell read back as a number. */
  function CountKey(r: Row): int
  {
    ParseNat(NatToString(r.count))
  }

  function CellText(r: Row, col: Column): string
  {
    match col
    case FileNameColumn => r.filename
    case CountColumn => NatToString(r.count)
    case LocationsColumn => r.locations
  }

  /** `t[0].lower()` for a text column. */
  function TextKey(col: Column): Row -> string
  {
    (r: Row) => Lower(CellText(r, col))
  }

  /** `items.sort(key=..., reverse=(order == "descending"))` (lines 451-457). */
  function SortRows(rows: seq<Row>, col: Column, order: SortOrder): seq<Row>
  {
    if col == CountColumn then SortByKey(rows, CountKey, IntLe, order == Descending)
    else SortByKey(rows, TextKey(col), StringLe, order == Descending)
  }

  /** Sorting keeps every row, and orders the rows by the clicked column:
      by their counts as numbers, or by the lower-cased text of the cell;
      rows with equal keys keep their order. */
  lemma SortRowsSorted(rows: seq<Row>, col: Column, order: SortOrder)
    ensures multiset(SortRows(rows, col, order)) == multiset(rows)
    ensures var r := SortRows(rows, col, order);
      forall i, j :: 0 <= i < j < |r| ==>
        if col == CountColumn then
          (if order == Descending then r[i].count >= r[j].count else r[i].count <= r[j].count)
        else
          Precedes(StringLe, order == Descending, Lower(CellText(r[i], col)), Lower(CellText(r[j], col)))
  {
    var r := SortRows(rows, col, order);
    if col == CountColumn {
      SortByKeyPermutation(rows, CountKey, IntLe, order == Descending);
      IntLeTotalPreorder();
      SortByKeySorted(rows, CountKey, IntLe, order == Descending);
      forall i | 0 <= i < |r| ensures CountKey(r[i]) == r[i].count {
        ParseNatToString(r[i].count);
      }
    } else {
      SortByKeyPermutation(rows, TextKey(col), StringLe, order == Descending);
      StringLeTotalPreorder();
      SortByKeySorted(rows, TextKey(col), StringLe, order == Descending);
    }
  }

  lemma SortRowsStable(rows: seq<Row>, col: Column, order: SortOrder, k: string)
    requires col != CountColumn
    ensures WithKeyOf(SortRows(rows, col, order), TextKey(col), k) == WithKeyOf(rows, TextKey(col), k)
  {
    StringLeTotalPreorder();
    SortByKeyStable(rows, TextKey(col), StringLe, order == Descending, k);
  }

  lemma SortRowsStableByCount(rows: seq<Row>, order: SortOrder, k: int)
    ensures WithKeyOf(SortRows(rows, CountColumn, order), CountKey, k) == WithKeyOf(rows, CountKey, k)
  {
    IntLeTotalPreorder();
    SortByKeyStable(rows, CountKey, IntLe, order == Descending, k);
  }

  // ----- The window state -----

  class Checker {
    var scanning: bool
    var status: string
    /** The rows of the result tree, in display order. */
    var rows: seq<Row>
    /** `full_file_info`: item id -> (file name, every directory). */
    var info: map<nat, (FileName, seq<Dir>)>
    /** The id the tree gives the next inserted row. */
    var nextId: nat
    var sortColumn: Option<Column>
    var sortOrder: SortOrder

    ghost predicate Valid()
      reads this
    {
      RowsConsistent(rows, info, nextId)
    }

    constructor ()
      ensures Valid()
      ensures !scanning && rows == [] && info == map[] && sortColumn == None && sortOrder == Ascending
      ensures status == "准备就绪，请选择文件夹并点击扫描按钮"
    {
      scanning := false;
      status := "准备就绪，请选择文件夹并点击扫描按钮";
      rows := [];
      info := map[];
      nextId := 0;
      sortColumn := None;
      sortOrder := Ascending;
    }

    /** `scan_files` (lines 211-239) up to starting the worker: an invalid
        folder only shows an error; otherwise the tree is emptied, the
        status says the count is running and `scanning` is set. */
    method ScanFiles(folderIsDir: bool) returns (started: bool)
      requires Valid()
      modifies this
      ensures Valid()
      ensures started == folderIsDir
      ensures !started ==> rows == old(rows) && scanning == old(scanning) && status == old(status)
      ensures started ==> rows == [] && scanning && status == "正在计算文件总数..."
      ensures info == old(info) && nextId == old(nextId)
      ensures sortColumn == old(sortColumn) && sortOrder == old(sortOrder)
    {
      if !folderIsDir {
        return false;
      }
      rows := [];
      status := "正在计算文件总数...";
      scanning := true;
      return true;
    }

    /** `_display_results` (lines 315-336): the saved information is
        cleared, one row per duplicate is appended in the given order, the
        status reports the totals and the scan controls are reset. */
    method DisplayResults(duplicates: seq<(FileName, seq<Dir>)>, total: nat)
      requires Valid()
      modifies this
      ensures Valid()
      ensures rows == old(rows) + RowsFor(duplicates, old(nextId))
      ensures info == InfoFor(duplicates, old(nextId))
      ensures nextId == old(nextId) + |duplicates|
      ensures status == SummaryText(total, |duplicates|)
      ensures !scanning
      ensures sortColumn == old(sortColumn) && sortOrder == old(sortOrder)
    {
      // `self.full_file_info.clear()`, then one insert per duplicate
      var added, saved := InsertRows(duplicates, nextId);
      ConsistentAfterDisplay(rows, duplicates, nextId);
      rows := rows + added;
      info := saved;
      nextId := nextId + |duplicates|;
      status := SummaryText(total, |duplicates|);
      scanning := false;  // `_reset_scan_ui`
    }

    /** What the interface thread does with the worker's outcome: the
        results are displayed, or the failure status is shown, and in every
        case the scan controls are reset. */
    method FinishScan(o: ScanOutcome)
      requires Valid()
      modifies this
      ensures Valid()
      ensures !scanning
      ensures status == if OutcomeStatus(o).Some? then OutcomeStatus(o).value else old(status)
      ensures o.Found? ==> rows == old(rows) + RowsFor(o.duplicates, old(nextId)) && info == InfoFor(o.duplicates, old(nextId))
      ensures !o.Found? ==> rows == old(rows) && info == old(info) && nextId == old(nextId)
      ensures sortColumn == old(sortColumn) && sortOrder == old(sortOrder)
    {
      match o {
        case Found(duplicates, total) =>
          DisplayResults(duplicates, total);
        case ScanError(_) =>
          status := OutcomeStatus(o).value;
          ResetScanUi();
        case _ =>
          ResetScanUi();
      }
    }

    /** `cancel_scan` (lines 479-482): the worker sees the cleared flag at
        its next check. */
    method CancelScan()
      requires Valid()
      modifies this
      ensures Valid()
      ensures !scanning && status == "正在取消扫描..."
      ensures rows == old(rows) && info == old(info) && nextId == old(nextId)
      ensures sortColumn == old(sortColumn) && sortOrder == old(sortOrder)
    {
      scanning := false;
      status := "正在取消扫描...";
    }

    /** `_reset_scan_ui` (lines 484-489). */
    method ResetScanUi()
      modifies this
      ensures !scanning
      ensures rows == old(rows) && info == old(info) && nextId == old(nextId) && status == old(status)
      ensures sortColumn == old(sortColumn) && sortOrder == old(sortOrder)
    {
      scanning := false;
    }

    /** `clear_results` (lines 434-439). */
    method ClearResults()
      requires Valid()
      modifies this
      ensures Valid()
      ensures rows == [] && info == map[] && status == "结果已清空"
      ensures scanning == old(scanning) && nextId == old(nextId)
      ensures sortColumn == old(sortColumn) && sortOrder == old(sortOrder)
    {
      rows := [];
      info := map[];
      status := "结果已清空";
    }

    /** `sort_by_column` (lines 441-462): update the sort state, then
        reorder the rows by the clicked column in the new order. */
    method SortByColumn(col: Column)
      requires Valid()
      modifies this
      ensures Valid()
      ensures (sortColumn, sortOrder) == NextSort(old(sortColumn), old(sortOrder), col)
      ensures rows == SortRows(old(rows), col, sortOrder)
      ensures info == old(info) && nextId == old(nextId) && scanning == old(scanning) && status == old(status)
    {
      if sortColumn == Some(col) {
        sortOrder := if sortOrder == Ascending then Descending else Ascending;
      } else {
        sortColumn := Some(col);
        sortOrder := Ascending;
      }
      SortRowsSorted(rows, col, sortOrder);
      ConsistentPermuted(rows, SortRows(rows, col, sortOrder), info, nextId);
      rows := SortRows(rows, col, sortOrder);
    }
  }

  /** Row ids are fresh when inserted, and a row whose id is in
      `full_file_info` shows what is saved there. */
  predicate RowsConsistent(rows: seq<Row>, info: map<nat, (FileName, seq<Dir>)>, nextId: nat)
  {
    && (forall i :: 0 <= i < |rows| ==> rows[i].id < nextId)
    && (forall id :: id in info ==> id < nextId)
    && (forall i :: 0 <= i < |rows| && rows[i].id in info ==> rows[i] == MakeRow(rows[i].id, info[rows[i].id]))
  }

  /** Reordering the rows keeps them consistent. */
  lemma ConsistentPermuted(rows: seq<Row>, reordered: seq<Row>, info: map<nat, (FileName, seq<Dir>)>, nextId: nat)
    requires RowsConsistent(rows, info, nextId)
    requires multiset(reordered) == multiset(rows)
    ensures RowsConsistent(reordered, info, nextId)
  {
    forall i | 0 <= i < |reordered| ensures exists j :: 0 <= j < |rows| && rows[j] == reordered[i] {
      assert reordered[i] in multiset(rows);
    }
  }

  /** The `k`th inserted row carries id `firstId + k` and agrees with the
      information saved under that id. */
  lemma AddedRowConsistent(duplicates: seq<(FileName, seq<Dir>)>, firstId: nat, k: nat)
    requires k < |duplicates|
    ensures RowsFor(duplicates, firstId)[k].id == firstId + k
    ensures firstId + k in InfoFor(duplicates, firstId)
    ensures RowsFor(duplicates, firstId)[k] == MakeRow(firstId + k, InfoFor(duplicates, firstId)[firstId + k])
  {
    assert InfoFor(duplicates, firstId)[firstId + k] == duplicates[k];
  }

  /** Rows appended with fresh ids, with `full_file_info` holding exactly
      their entries, leave every row consistent with the saved information. */
  lemma ConsistentAfterDisplay(before: seq<Row>, duplicates: seq<(FileName, seq<Dir>)>, firstId: nat)
    requires forall i :: 0 <= i < |before| ==> before[i].id < firstId
    ensures RowsConsistent(before + RowsFor(duplicates, firstId), InfoFor(duplicates, firstId), firstId + |duplicates|)
  {
    var added := RowsFor(duplicates, firstId);
    var info := InfoFor(duplicates, firstId);
    var rows := before + added;
    forall i | 0 <= i < |rows|
      ensures rows[i].id < firstId + |duplicates|
      ensures rows[i].id in info ==> rows[i] == MakeRow(rows[i].id, info[rows[i].id])
    {
      if i < |before| {
        assert rows[i] == before[i];
        assert rows[i].id !in info;
      } else {
        AddedRowConsistent(duplicates, firstId, i - |before|);
      }
    }
  }

  /** A scan's results, once displayed on an emptied tree, give one row per
      duplicate in order, each consistent with the saved information. */
  lemma DisplayedRowsMatchInfo(duplicates: seq<(FileName, seq<Dir>)>, firstId: nat)
    ensures var rows := RowsFor(duplicates, firstId);
      var info := InfoFor(duplicates, firstId);
      forall i :: 0 <= i < |rows| ==>
        && rows[i].id in info
        && info[rows[i].id] == duplicates[i]
        && rows[i].filename == duplicates[i].0
        && rows[i].count == |duplicates[i].1|
  {
  }
}
