/** `update_spreadsheet` and `main` of the upload script: the saved records
    become a grid, headed by the first record's keys, with the `Owned`
    column turned into a boolean, ready for `worksheet.update`. */
module SheetLoad {
  import opened Records
  import PullSheet

  const OwnedKey := "Owned"

  /** A cell sent to the sheet: the record's string, or a boolean. */
  datatype Cell = Text(s: string) | Flag(b: bool)

  /** The exception that ends the row building. */
  datatype Failure =
    | NoRecords                // `data[0]` on an empty list: `IndexError`
    | MissingKey(key: string)  // `item[header]`: `KeyError`
    | OwnedNotInHeaders        // `headers.index("Owned")`: `ValueError`

  function UpperChar(c: char): char {
    if 'a' <= c <= 'z' then (c as int - 32) as char else c
  }

  /** `str.upper` on ASCII text. */
  function Upper(s: string): (r: string)
    ensures |r| == |s| && forall i :: 0 <= i < |s| ==> r[i] == UpperChar(s[i])
  {
    if s == [] then [] else [UpperChar(s[0])] + Upper(s[1..])
  }

  /** `value.upper() == "TRUE"`: a case-insensitive match of `true`. */
  predicate IsTrue(value: string): (b: bool)
    ensures b <==>
      |value| == 4 && (value[0] == 'T' || value[0] == 't') && (value[1] == 'R' || value[1] == 'r') &&
      (value[2] == 'U' || value[2] == 'u') && (value[3] == 'E' || value[3] == 'e')
  {
    var u := Upper(value);
    assert |value| == 4 ==> u == [u[0], u[1], u[2], u[3]];
    u == "TRUE"
  }

  /** The outcome of the per-row comprehension. */
  datatype RowResult = Row(cells: seq<Cell>) | Raised(error: Failure)

  /** `[item[header] for header in headers]`: the record's value under each
      header, or `KeyError` for the first header the record lacks. */
  function Cells(headers: seq<string>, item: Dict): (r: RowResult)
    ensures r.Raised? <==> exists j :: 0 <= j < |headers| && headers[j] !in item.entries
    ensures r.Raised? ==>
      r.error.MissingKey? && r.error.key in headers && r.error.key !in item.entries &&
      forall j :: 0 <= j < IndexOf(headers, r.error.key) ==> headers[j] in item.entries
    ensures r.Row? ==> |r.cells| == |headers|
    ensures r.Row? ==> forall j :: 0 <= j < |headers| ==> r.cells[j] == Text(item.entries[headers[j]])
  {
    if headers == [] then Row([])
    else if headers[0] !in item.entries then Raised(MissingKey(headers[0]))
    else
      match Cells(headers[1..], item)
      case Raised(e) => Raised(e)
      case Row(rest) => Row([Text(item.entries[headers[0]])] + rest)
  }

  /** Building the row for `item` under `headers` raises. */
  predicate RowFails(headers: seq<string>, item: Dict) {
    (exists j :: 0 <= j < |headers| && headers[j] !in item.entries) ||
    (OwnedKey in item.entries && OwnedKey !in headers)
  }

  /** The exception a failing row raises: the missing key comes first. */
  function RowError(headers: seq<string>, item: Dict): Failure
    requires RowFails(headers, item)
  {
    var cells := Cells(headers, item);
    if cells.Raised? then cells.error else OwnedNotInHeaders
  }

  /** The row sent for `item`: its value under each header, except that the
      `Owned` column holds whether that value reads `TRUE`. */
  function ExpectedRow(headers: seq<string>, item: Dict): (row: seq<Cell>)
    requires !RowFails(headers, item)
    ensures |row| == |headers|
  {
    seq(|headers|, j requires 0 <= j < |headers| =>
      if headers[j] == OwnedKey && j == IndexOf(headers, OwnedKey) then Flag(IsTrue(item.entries[OwnedKey]))
      else Text(item.entries[headers[j]]))
  }

  /** What `update_spreadsheet` does: send the header's rows to the sheet,
      or log the exception that stopped it. */
  datatype Update = Sent(headers: seq<string>, rows: seq<seq<Cell>>) | Logged(error: Failure)

  /** The row building of `update_spreadsheet`, up to `worksheet.update`. */
  method UpdateSpreadsheet(data: seq<Dict>) returns (r: Update)
    ensures data == [] ==> r == Logged(NoRecords)
    ensures data != [] ==>
      (r.Sent? <==> forall i :: 0 <= i < |data| ==> !RowFails(data[0].keys, data[i]))
    ensures r.Sent? ==>
      r.headers == data[0].keys && |r.rows| == |data| &&
      forall i :: 0 <= i < |data| ==> !RowFails(r.headers, data[i]) && r.rows[i] == ExpectedRow(r.headers, data[i])
    ensures r.Logged? && data != [] ==>
      exists i :: 0 <= i < |data| && RowFails(data[0].keys, data[i]) &&
        r.error == RowError(data[0].keys, data[i]) &&
        forall l :: 0 <= l < i ==> !RowFails(data[0].keys, data[l])
  {
    if |data| == 0 {
      return Logged(NoRecords);
    }
    var headers := data[0].keys;
    var rows: seq<seq<Cell>> := [];
    var i := 0;
    while i < |data|
      invariant 0 <= i <= |data| && |rows| == i
      invariant forall l :: 0 <= l < i ==> !RowFails(headers, data[l]) && rows[l] == ExpectedRow(headers, data[l])
    {
      var item := data[i];
      var cells := Cells(headers, item);
      if cells.Raised? {
        return Logged(cells.error);
      }
      var row := cells.cells;
      if OwnedKey in item.entries {
        if OwnedKey !in headers {
          return Logged(OwnedNotInHeaders);
        }
        var j := IndexOf(headers, OwnedKey);
        row := row[j := Flag(IsTrue(item.entries[OwnedKey]))];
      }
      assert row == ExpectedRow(headers, item);
      rows := rows + [row];
      i := i + 1;
    }
    return Sent(headers, rows);
  }

  /** `main`: nothing is sent when the data could not be loaded or holds no
      record, so the `IndexError` of an empty list is never reached. */
  method Upload(loaded: Option<seq<Dict>>) returns (r: Option<Update>)
    ensures r.None? <==> loaded.None? || loaded.value == []
    ensures r.Some? ==> r.value != Logged(NoRecords)
    ensures r.Some? ==>
      (r.value.Sent? <==> forall i :: 0 <= i < |loaded.value| ==> !RowFails(loaded.value[0].keys, loaded.value[i]))
  {
    if loaded.None? || loaded.value == [] {
      return None;
    }
    var update := UpdateSpreadsheet(loaded.value);
    return Some(update);
  }

  /** The row a pulled sheet row comes back as: its cells as text, with the
      `Owned` column as a boolean. */
  function Reloaded(headers: seq<string>, row: seq<string>): (cells: seq<Cell>)
    requires |row| == |headers|
    ensures |cells| == |headers|
  {
    seq(|headers|, j requires 0 <= j < |headers| =>
      if headers[j] == OwnedKey then Flag(IsTrue(row[j])) else Text(row[j]))
  }

  /** A row pulled under distinct headers rebuilds, cell for cell, the row
      it was pulled from. */
  lemma PulledRowReloads(headers: seq<string>, row: seq<string>)
    requires Distinct(headers) && |row| == |headers|
    ensures !RowFails(headers, PullSheet.RowRecord(headers, row))
    ensures ExpectedRow(headers, PullSheet.RowRecord(headers, row)) == Reloaded(headers, row)
  {
    var item := PullSheet.RowRecord(headers, row);
    PullSheet.FullRowRecord(headers, row);
    PullSheet.RowRecordEntries(headers, row);
    assert headers[..|row|] == headers;
    assert !RowFails(headers, item);
    var expected, reloaded := ExpectedRow(headers, item), Reloaded(headers, row);
    forall j | 0 <= j < |headers|
      ensures expected[j] == reloaded[j]
    {
      assert Get(item, headers[j]) == Some(row[j]);
      if headers[j] == OwnedKey {
        var k := IndexOf(headers, OwnedKey);
        assert headers[k] == headers[j];
      }
    }
  }

  /** Records pulled from a sheet whose headers are distinct upload as the
      same header row and, for every kept data row, the same cells. */
  lemma PulledRecordsReload(headers: seq<string>, data: seq<seq<string>>, records: seq<Dict>)
    requires Distinct(headers) && PullSheet.ToRecords(headers, data) == Some(records) && records != []
    ensures records[0].keys == headers
    ensures forall j :: 0 <= j < |records| ==> !RowFails(headers, records[j])
    ensures forall j :: 0 <= j < |records| ==>
      var row := data[PullSheet.FullRowsFrom(headers, data, 0)[j]];
      |row| == |headers| && ExpectedRow(headers, records[j]) == Reloaded(headers, row)
  {
    var kept := PullSheet.FullRowsFrom(headers, data, 0);
    PullSheet.FullRowRecord(headers, data[kept[0]]);
    forall j | 0 <= j < |records|
      ensures !RowFails(headers, records[j])
      ensures ExpectedRow(headers, records[j]) == Reloaded(headers, data[kept[j]])
    {
      PulledRowReloads(headers, data[kept[j]]);
    }
  }
}
