/** `pull_sheet`: the worksheet's header row and data rows become a list of
    records, one dictionary per data row that is as long as the header row. */
module PullSheet {
  import opened Records
  import opened Decimal

  datatype Level = Error | Warning | Info

  /** One line written through `logging`. */
  datatype LogEntry = LogEntry(level: Level, message: string)

  /** `handle_error`: logs `message` at the level named by `logLevel` (any
      name other than `"error"` and `"warning"` logs at info) and returns
      `None`, whatever the level. */
  function HandleError(message: string, logLevel: string): (r: (LogEntry, Option<seq<Dict>>))
    ensures r.1 == None
    ensures r.0.message == message
    ensures r.0.level == Error <==> logLevel == "error"
    ensures r.0.level == Warning <==> logLevel == "warning"
  {
    var level := if logLevel == "error" then Error else if logLevel == "warning" then Warning else Info;
    (LogEntry(level, message), None)
  }

  /** `{headers[i]: row[i] for i in range(len(row))}` for a row no longer
      than the header row: the columns are stored left to right, so a
      repeated header keeps its first place and takes its last value. */
  function RowRecord(headers: seq<string>, row: seq<string>): (r: Dict)
    requires |row| <= |headers|
    ensures r.Valid()
  {
    if row == [] then EmptyDict
    else Set(RowRecord(headers, row[..|row| - 1]), headers[|row| - 1], row[|row| - 1])
  }

  /** The record has a value for exactly the headers of the row's columns. */
  lemma {:induction false} RowRecordEntries(headers: seq<string>, row: seq<string>)
    requires |row| <= |headers|
    ensures forall k :: k in RowRecord(headers, row).entries <==> k in headers[..|row|]
  {
    if row != [] {
      var n := |row|;
      RowRecordEntries(headers, row[..n - 1]);
      assert headers[..n] == headers[..n - 1] + [headers[n - 1]];
    }
  }

  /** When the headers of the row's columns are all different, the record's
      keys are those headers in column order. */
  lemma {:induction false} RowRecordKeys(headers: seq<string>, row: seq<string>)
    requires |row| <= |headers| && Distinct(headers[..|row|])
    ensures RowRecord(headers, row).keys == headers[..|row|]
  {
    if row != [] {
      var n := |row|;
      var prefix := row[..n - 1];
      assert headers[..n - 1] == headers[..n][..n - 1];
      RowRecordKeys(headers, prefix);
      RowRecordEntries(headers, prefix);
      assert headers[n - 1] !in headers[..n - 1] by {
        assert headers[..n][n - 1] == headers[n - 1];
      }
      assert headers[..n] == headers[..n - 1] + [headers[n - 1]];
    }
  }

  /** A column whose header does not occur again further right gives the
      record's value for that header: with repeated headers the later
      column wins. */
  lemma {:induction false} RowRecordLaterWins(headers: seq<string>, row: seq<string>, i: nat)
    requires i < |row| <= |headers|
    requires forall j :: i < j < |row| ==> headers[j] != headers[i]
    ensures Get(RowRecord(headers, row), headers[i]) == Some(row[i])
  {
    var n := |row|;
    var prefix := row[..n - 1];
    var before := RowRecord(headers, prefix);
    assert RowRecord(headers, row) == Set(before, headers[n - 1], row[n - 1]);
    if i < n - 1 {
      assert prefix[i] == row[i] && headers[n - 1] != headers[i];
      RowRecordLaterWins(headers, prefix, i);
    }
  }

  /** With all headers different, a row as long as the header row maps
      `headers[i]` to `row[i]` for every column, and nothing else. */
  lemma FullRowRecord(headers: seq<string>, row: seq<string>)
    requires Distinct(headers) && |row| == |headers|
    ensures RowRecord(headers, row).keys == headers
    ensures forall i :: 0 <= i < |row| ==> Get(RowRecord(headers, row), headers[i]) == Some(row[i])
  {
    assert headers[..|row|] == headers;
    RowRecordKeys(headers, row);
    RowRecordEntries(headers, row);
    forall i | 0 <= i < |row|
      ensures Get(RowRecord(headers, row), headers[i]) == Some(row[i])
    {
      RowRecordLaterWins(headers, row, i);
    }
  }

  /** Two columns under the same header give one key, holding the second
      column's value. */
  lemma DuplicateHeader(name: string, first: string, second: string)
    ensures RowRecord([name, name], [first, second]) == Dict([name], map[name := second])
  {
    var headers, row := [name, name], [first, second];
    assert row[..1] == [first] && row[..1][..0] == [];
    var one := RowRecord(headers, row[..1]);
    assert one == Set(RowRecord(headers, []), name, first);
    assert one == Dict([name], map[name := first]);
    assert RowRecord(headers, row) == Set(one, name, second);
  }

  /** Indices, from `from` on, of the data rows the filter
      `len(row) >= len(headers)` keeps, in row order. */
  function FullRowsFrom(headers: seq<string>, data: seq<seq<string>>, from: nat): (r: seq<nat>)
    requires from <= |data|
    ensures forall j :: 0 <= j < |r| ==> from <= r[j] < |data|
    decreases |data| - from
  {
    if from == |data| then []
    else
      var rest := FullRowsFrom(headers, data, from + 1);
      if |data[from]| >= |headers| then [from] + rest else rest
  }

  /** The kept indices are in increasing row order. */
  lemma {:induction false} FullRowsOrdered(headers: seq<string>, data: seq<seq<string>>, from: nat)
    requires from <= |data|
    ensures forall j, l :: 0 <= j < l < |FullRowsFrom(headers, data, from)| ==>
      FullRowsFrom(headers, data, from)[j] < FullRowsFrom(headers, data, from)[l]
    decreases |data| - from
  {
    if from < |data| {
      FullRowsOrdered(headers, data, from + 1);
      var r, rest := FullRowsFrom(headers, data, from), FullRowsFrom(headers, data, from + 1);
      if |data[from]| >= |headers| {
        assert r == [from] + rest;
        forall j, l | 0 <= j < l < |r| ensures r[j] < r[l] {
          assert r[l] == rest[l - 1] && from < rest[l - 1];
          if j > 0 {
            assert r[j] == rest[j - 1] && rest[j - 1] < rest[l - 1];
          }
        }
      }
    }
  }

  /** An index is kept exactly when its row is at least as long as the
      header row. */
  lemma {:induction false} FullRowsMembers(headers: seq<string>, data: seq<seq<string>>, from: nat)
    requires from <= |data|
    ensures var r := FullRowsFrom(headers, data, from);
      forall i :: from <= i < |data| ==> (i in r <==> |data[i]| >= |headers|)
    decreases |data| - from
  {
    if from < |data| {
      FullRowsMembers(headers, data, from + 1);
      var r, rest := FullRowsFrom(headers, data, from), FullRowsFrom(headers, data, from + 1);
      if |data[from]| >= |headers| {
        assert r == [from] + rest;
        forall i | from <= i < |data| ensures i in r <==> |data[i]| >= |headers| {
          assert i in r <==> i == from || i in rest;
        }
      } else {
        assert r == rest;
        assert from !in rest;
      }
    }
  }

  /** The list comprehension over `data[from..]`: `None` when some row is
      longer than the header row (its `headers[i]` is out of range and
      raises `IndexError`), otherwise one record per kept row, in order. */
  function RecordsFrom(headers: seq<string>, data: seq<seq<string>>, from: nat): (r: Option<seq<Dict>>)
    requires from <= |data|
    ensures r.None? <==> exists i :: from <= i < |data| && |data[i]| > |headers|
    ensures r.Some? ==> |r.value| == |FullRowsFrom(headers, data, from)|
    decreases |data| - from
  {
    if from == |data| then Some([])
    else if |data[from]| > |headers| then None
    else
      var rest := RecordsFrom(headers, data, from + 1);
      if rest.None? then None
      else if |data[from]| == |headers| then Some([RowRecord(headers, data[from])] + rest.value)
      else rest
  }

  /** The `j`-th record comes from the `j`-th kept row, which is exactly as
      long as the header row. */
  lemma {:induction false} RecordsAligned(headers: seq<string>, data: seq<seq<string>>, from: nat)
    requires from <= |data| && RecordsFrom(headers, data, from).Some?
    ensures var kept, records := FullRowsFrom(headers, data, from), RecordsFrom(headers, data, from).value;
      forall j :: 0 <= j < |kept| ==>
        |data[kept[j]]| == |headers| && records[j] == RowRecord(headers, data[kept[j]])
    decreases |data| - from
  {
    if from < |data| {
      RecordsAligned(headers, data, from + 1);
      var kept, rest := FullRowsFrom(headers, data, from), FullRowsFrom(headers, data, from + 1);
      var records, later := RecordsFrom(headers, data, from).value, RecordsFrom(headers, data, from + 1).value;
      var full := |data[from]| == |headers|;
      assert full ==> kept == [from] + rest && records == [RowRecord(headers, data[from])] + later;
      assert !full ==> kept == rest && records == later;
      forall j | 0 <= j < |kept|
        ensures |data[kept[j]]| == |headers| && records[j] == RowRecord(headers, data[kept[j]])
      {
        if !full {
          assert kept[j] == rest[j] && records[j] == later[j];
        } else if j > 0 {
          assert kept[j] == rest[j - 1] && records[j] == later[j - 1];
        }
      }
    }
  }

  /** The records built from the data rows. */
  function ToRecords(headers: seq<string>, data: seq<seq<string>>): (r: Option<seq<Dict>>)
    ensures r.None? <==> exists i :: 0 <= i < |data| && |data[i]| > |headers|
    ensures r.Some? ==> |r.value| <= |data|
    ensures r.Some? ==>
      var kept := FullRowsFrom(headers, data, 0);
      |r.value| == |kept| &&
      forall j :: 0 <= j < |kept| ==>
        |data[kept[j]]| == |headers| && r.value[j] == RowRecord(headers, data[kept[j]])
  {
    KeptCount(headers, data, 0);
    var r := RecordsFrom(headers, data, 0);
    if r.Some? then RecordsAligned(headers, data, 0); r else r
  }

  lemma {:induction false} KeptCount(headers: seq<string>, data: seq<seq<string>>, from: nat)
    requires from <= |data|
    ensures |FullRowsFrom(headers, data, from)| <= |data| - from
    decreases |data| - from
  {
    if from < |data| {
      KeptCount(headers, data, from + 1);
    }
  }

  /** What the Sheets API gives back: the header row (`row_values(1)`) and
      the whole grid (`get_all_values()`), or an authentication or API
      error raised on the way. */
  datatype Sheet =
    | Sheet(headers: seq<string>, grid: seq<seq<string>>)
    | AuthFailure(detail: string)
    | ApiFailure(detail: string)

  /** The outcome of `pull_sheet`: the returned records, what was written
      to `sheet_data.json`, and the line logged. */
  datatype Pull = Pull(rows: Option<seq<Dict>>, saved: Option<seq<Dict>>, log: LogEntry)

  /** `get_all_values()[1:]`: every row after the header row. */
  function DataRows(grid: seq<seq<string>>): (r: seq<seq<string>>)
    ensures |r| == if grid == [] then 0 else |grid| - 1
    ensures forall i :: 0 <= i < |r| ==> r[i] == grid[i + 1]
  {
    if grid == [] then [] else grid[1..]
  }

  const IndexErrorText := "list index out of range"

  /** `pull_sheet`: the records are saved and returned, or every failure is
      logged through `handle_error` and gives `None` with nothing saved. */
  function PullSheet(sheet: Sheet): (r: Pull)
    ensures r.saved == r.rows
    ensures r.rows.None? <==>
      !sheet.Sheet? || exists i :: 1 <= i < |sheet.grid| && |sheet.grid[i]| > |sheet.headers|
    ensures r.rows.Some? ==> |r.rows.value| <= |DataRows(sheet.grid)| && r.log.level == Info
    ensures r.rows.None? ==> r.log.level == Error
    ensures sheet.Sheet? ==> r.rows == ToRecords(sheet.headers, DataRows(sheet.grid))
    ensures sheet.AuthFailure? ==> r.log.message == "Google Authentication Error: " + sheet.detail
    ensures sheet.ApiFailure? ==> r.log.message == "Google Sheets API Error: " + sheet.detail
    ensures sheet.Sheet? && r.rows.None? ==> r.log.message == "Unexpected Error: " + IndexErrorText
    ensures r.rows.Some? ==>
      r.log.message == "Data saved to 'sheet_data.json' with " + Digits(|r.rows.value|) + " entries."
  {
    match sheet
    case AuthFailure(detail) =>
      var (log, none) := HandleError("Google Authentication Error: " + detail, "error");
      Pull(none, none, log)
    case ApiFailure(detail) =>
      var (log, none) := HandleError("Google Sheets API Error: " + detail, "error");
      Pull(none, none, log)
    case Sheet(headers, grid) =>
      var data := DataRows(grid);
      var rows := ToRecords(headers, data);
      if rows.None? then
        var (log, none) := HandleError("Unexpected Error: " + IndexErrorText, "error");
        Pull(none, none, log)
      else
        var log := LogEntry(Info, "Data saved to 'sheet_data.json' with " + Digits(|rows.value|) + " entries.");
        Pull(rows, rows, log)
  }

  /** The header row itself never becomes a record: whatever the grid's
      first row holds, the pull is the same. */
  lemma HeaderRowIgnored(headers: seq<string>, first: seq<string>, other: seq<string>, rest: seq<seq<string>>)
    ensures PullSheet(Sheet(headers, [first] + rest)) == PullSheet(Sheet(headers, [other] + rest))
  {
    assert DataRows([first] + rest) == rest == DataRows([other] + rest);
  }
}
