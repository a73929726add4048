/** The in-memory CSV table: a column index kept beside headers and rows that may be
    ragged, and its mutations. */
module Csv {
  import opened Prelude

  type Row = seq<string>

  datatype CsvError = ColumnNotFound | ColumnExists | IndexOutOfRange | MissingColumn | BadRow | NoRows | BadRange

  // -------------------------------------------------------- the column index

  /** `m` sends every header to the last place where it stands, and nothing else. */
  ghost predicate IsIndex(headers: seq<string>, m: map<string, nat>) {
    && (forall h :: h in headers <==> h in m)
    && forall h :: h in m ==> LastAt(headers, h, m[h])
  }

  predicate LastAt(headers: seq<string>, h: string, i: nat) {
    i < |headers| && headers[i] == h && forall j :: i < j < |headers| ==> headers[j] != h
  }

  lemma IndexUnique(headers: seq<string>, m: map<string, nat>, n: map<string, nat>)
    requires IsIndex(headers, m) && IsIndex(headers, n)
    ensures m == n
  {
    forall h | h in m
      ensures h in n && m[h] == n[h]
    {
      assert h in headers;
      LastUnique(headers, h, m[h], n[h]);
    }
    forall h | h in n
      ensures h in m
    {
      assert h in headers;
    }
  }

  lemma LastUnique(headers: seq<string>, h: string, i: nat, j: nat)
    requires LastAt(headers, h, i) && LastAt(headers, h, j)
    ensures i == j
  {
  }

  lemma IndexAppend(headers: seq<string>, m: map<string, nat>, h: string)
    requires IsIndex(headers, m)
    ensures IsIndex(headers + [h], m[h := |headers|])
  {
    var headers', m' := headers + [h], m[h := |headers|];
    forall g | g in m'
      ensures LastAt(headers', g, m'[g])
    {
    }
  }

  /** The index that `parse_csv` collects: later headers overwrite earlier ones. */
  method CollectIndex(headers: seq<string>) returns (m: map<string, nat>)
    ensures IsIndex(headers, m)
  {
    m := map[];
    for i := 0 to |headers|
      invariant IsIndex(headers[..i], m)
    {
      IndexAppend(headers[..i], m, headers[i]);
      assert headers[..i + 1] == headers[..i] + [headers[i]];
      m := m[headers[i] := i];
    }
    assert headers[..|headers|] == headers;
  }

  // ------------------------------------------------------ the cell-level view

  /** A cell as every reader sees it: what a short row lacks is empty. */
  function Cell(row: Row, i: nat): string {
    if i < |row| then row[i] else ""
  }

  function RemoveAt<T>(s: seq<T>, i: nat): (r: seq<T>)
    requires i < |s|
    ensures |r| == |s| - 1 && forall k :: 0 <= k < |r| ==> r[k] == s[if k < i then k else k + 1]
  {
    s[..i] + s[i + 1..]
  }

  /** A row without the cell of one column, if it reaches that far. */
  function RemoveCell(row: Row, i: nat): Row {
    if i < |row| then RemoveAt(row, i) else row
  }

  function Resized(row: Row, n: nat): Row
    requires n >= |row|
  {
    row + seq(n - |row|, _ => "")
  }

  /** Writing one cell of a row in a table of the given width; a short row is padded. */
  function SetCell(row: Row, i: nat, width: nat, value: string): Row {
    if i < |row| then row[i := value]
    else Resized(row, if width > i + 1 then width else i + 1)[i := value]
  }

  /** One cell is written and no other cell is seen to change. A row that reaches the cell
      keeps its length, a shorter one is filled up to the width or up to the cell. */
  lemma SetCellView(row: Row, i: nat, width: nat, value: string, j: nat)
    ensures Cell(SetCell(row, i, width, value), j) == if j == i then value else Cell(row, j)
    ensures |SetCell(row, i, width, value)| == if i < |row| then |row| else if i < width then width else i + 1
  {
  }

  /** Removing a column keeps what every name looks up that does not lead to this very
      column, on short and on long rows alike, and forgets no such name. */
  lemma RemovalKeepsOtherColumns(headers: seq<string>, m: map<string, nat>, m': map<string, nat>,
                                 c: nat, row: Row, name: string)
    requires c < |headers| && name in m && m[name] != c
    requires IsIndex(headers, m) && IsIndex(RemoveAt(headers, c), m')
    ensures name in m'
    ensures Cell(RemoveCell(row, c), m'[name]) == Cell(row, m[name])
  {
    var i := m[name];
    assert LastAt(headers, name, i);
    LastAfterRemoval(headers, c, name, i);
    hide RemoveCell, RemoveAt, Cell;
    IndexLooksUp(RemoveAt(headers, c), m', name);
    hide IsIndex, LastAt;
    RemovedCellView(row, c, i);
    LastUnique(RemoveAt(headers, c), name, if i < c then i else i - 1, m'[name]);
  }

  lemma IndexLooksUp(headers: seq<string>, m: map<string, nat>, name: string)
    requires IsIndex(headers, m) && name in headers
    ensures name in m && LastAt(headers, name, m[name])
  {
  }

  lemma RemovedCellView(row: Row, c: nat, i: nat)
    requires i != c
    ensures Cell(RemoveCell(row, c), if i < c then i else i - 1) == Cell(row, i)
  {
  }

  lemma LastAfterRemoval(headers: seq<string>, c: nat, name: string, i: nat)
    requires c < |headers| && LastAt(headers, name, i) && i != c
    ensures name in RemoveAt(headers, c) && LastAt(RemoveAt(headers, c), name, if i < c then i else i - 1)
  {
    var headers', i' := RemoveAt(headers, c), if i < c then i else i - 1;
    assert headers'[i'] == name;
    forall j | i' < j < |headers'|
      ensures headers'[j] != name
    {
      assert headers'[j] == headers[if j < c then j else j + 1];
    }
  }

  /** A column was added as meant: all old cells are seen unchanged and the new cell
      holds the default. */
  predicate AddedAsMeant(row: Row, width: nat, value: string) {
    && (forall i :: 0 <= i < width ==> Cell(row + [value], i) == Cell(row, i))
    && Cell(row + [value], width) == value
  }

  /** Pushing the default behind a row does what is meant exactly on rows as wide as
      the header, on short rows when the default is empty, and on long rows when the
      cell behind the last header already holds the default. */
  lemma WhenColumnIsAdded(row: Row, width: nat, value: string)
    ensures AddedAsMeant(row, width, value) <==>
              || |row| == width
              || (|row| < width && value == "")
              || (|row| > width && row[width] == value)
  {
    var row' := row + [value];
    assert Cell(row', |row|) == value;
    if |row| < width {
      assert Cell(row, |row|) == "";
    }
  }

  /** Behind a row of one cell in a table of two columns the default lands in the second
      column, and the third, new one stays empty. */
  lemma ShortRowIsShifted()
    ensures var row := ["a"] + ["x"];
            Cell(row, 1) == "x" && Cell(row, 2) == "" && !AddedAsMeant(["a"], 2, "x")
  {
    WhenColumnIsAdded(["a"], 2, "x");
  }

  /** Adding a fresh column and removing it again gives a row back exactly when the
      row is as wide as the header, or longer with nothing but the default behind it. */
  lemma AddThenRemove(row: Row, width: nat, value: string)
    ensures RemoveCell(row + [value], width) == row <==>
              |row| >= width && forall k :: width <= k < |row| ==> row[k] == value
  {
    var back := RemoveCell(row + [value], width);
    if |row| >= width {
      if back == row {
        CellsRepeat(row, width, value);
      }
      assert forall k :: 0 <= k < |row| ==>
        back[k] == if k < width then row[k] else if k + 1 < |row| then row[k + 1] else value;
    }
  }

  lemma CellsRepeat(row: Row, width: nat, value: string)
    requires width <= |row| && RemoveAt(row + [value], width) == row
    ensures forall k :: width <= k < |row| ==> row[k] == value
  {
    var back := RemoveAt(row + [value], width);
    var k := |row|;
    while k > width
      invariant width <= k <= |row|
      invariant forall j :: k <= j < |row| ==> row[j] == value
    {
      k := k - 1;
      assert back[k] == if k + 1 < |row| then row[k + 1] else value;
    }
  }

  // ------------------------------------------------------------------ table

  /** How a request names a column: by name, by number, or not at all. */
  datatype ColumnArg = ByName(name: string) | ByNumber(number: nat) | Unnamed

  /** One new row of a request: an object of named cells, a list of cells, or neither.
      A JSON object has each name at most once. */
  datatype RowArg = Named(fields: seq<(string, string)>) | Listed(cells: Row) | Neither

  class CsvData {
    var headers: seq<string>
    var columnMap: map<string, nat>
    var rows: seq<Row>

    ghost predicate Valid()
      reads this
    {
      IsIndex(headers, columnMap)
    }

    constructor Parse(headers: seq<string>, rows: seq<Row>)
      ensures Valid() && this.headers == headers && this.rows == rows
    {
      var index := CollectIndex(headers);
      this.headers, this.columnMap, this.rows := headers, index, rows;
    }

    function FindColumn(name: string): Result<nat, CsvError>
      reads this
    {
      if name in columnMap then Ok(columnMap[name]) else Err(ColumnNotFound)
    }

    function ResolveColumn(column: ColumnArg): (r: Result<nat, CsvError>)
      reads this
      requires Valid()
      ensures r.Ok? ==> r.value < |headers|
      ensures column.ByNumber? ==> r == if column.number < |headers| then Ok(column.number) else Err(IndexOutOfRange)
      ensures column.ByName? ==> (r.Ok? <==> column.name in headers)
      ensures column.ByName? && r.Ok? ==> LastAt(headers, column.name, r.value)
      ensures column.Unnamed? ==> r == Err(MissingColumn)
    {
      match column
      case ByName(name) => FindColumn(name)
      case ByNumber(n) => if n >= |headers| then Err(IndexOutOfRange) else Ok(n)
      case Unnamed => Err(MissingColumn)
    }

    /** Writes one cell: every other cell of the table is seen as before. */
    method UpdateCell(row: nat, column: ColumnArg, value: string) returns (r: Result<(), CsvError>)
      requires Valid()
      modifies this`rows
      ensures Valid()
      ensures r.Ok? <==> old(ResolveColumn(column)).Ok? && row < |old(rows)|
      ensures r.Err? ==> rows == old(rows)
      ensures r.Ok? ==>
                var c := old(ResolveColumn(column)).value;
                && |rows| == |old(rows)|
                && forall i, j: nat :: 0 <= i < |rows| ==>
                     Cell(rows[i], j) == if i == row && j == c then value else Cell(old(rows)[i], j)
      ensures r.Ok? && column.ByNumber? ==> Cell(rows[row], column.number) == value
    {
      var column := ResolveColumn(column);
      if column.Err? {
        return Err(column.error);
      }
      if row >= |rows| {
        return Err(IndexOutOfRange);
      }
      forall j: nat {
        SetCellView(rows[row], column.value, |headers|, value, j);
      }
      rows := rows[row := SetCell(rows[row], column.value, |headers|, value)];
      r := Ok(());
    }

    method RemoveRow(row: nat) returns (r: Result<(), CsvError>)
      modifies this`rows
      ensures r.Ok? <==> row < |old(rows)|
      ensures rows == if r.Ok? then old(rows)[..row] + old(rows)[row + 1..] else old(rows)
    {
      if row >= |rows| {
        return Err(IndexOutOfRange);
      }
      rows := RemoveAt(rows, row);
      r := Ok(());
    }

    method AddColumn(column: string, value: string) returns (r: Result<(), CsvError>)
      requires Valid()
      modifies this
      ensures Valid()
      ensures r.Ok? <==> column !in old(headers)
      ensures r.Err? ==> headers == old(headers) && rows == old(rows)
      ensures r.Ok? ==> headers == old(headers) + [column] && |rows| == |old(rows)|
      ensures r.Ok? ==> forall i :: 0 <= i < |rows| ==> rows[i] == old(rows)[i] + [value]
    {
      if column in columnMap {
        assert column in headers;
        return Err(ColumnExists);
      }
      IndexAppend(headers, columnMap, column);
      var width := |headers|;
      headers := headers + [column];
      columnMap := columnMap[column := width];
      var k := 0;
      while k < |rows|
        modifies this`rows
        invariant k <= |rows| == |old(rows)|
        invariant forall i :: 0 <= i < |rows| ==> rows[i] == if i < k then old(rows)[i] + [value] else old(rows)[i]
      {
        rows := rows[k := rows[k] + [value]];
        k := k + 1;
      }
      r := Ok(());
    }

    /** Removes one column. `RemovalKeepsOtherColumns` says what the others look up then. */
    method RemoveColumn(column: ColumnArg) returns (r: Result<string, CsvError>)
      requires Valid()
      modifies this
      ensures Valid()
      ensures r.Ok? <==> old(ResolveColumn(column)).Ok?
      ensures r.Err? ==> headers == old(headers) && rows == old(rows)
      ensures r.Ok? ==>
                var c := old(ResolveColumn(column)).value;
                && r.value == old(headers)[c] && headers == RemoveAt(old(headers), c)
                && |rows| == |old(rows)|
                && forall i :: 0 <= i < |rows| ==> rows[i] == RemoveCell(old(rows)[i], c)
    {
      var column := ResolveColumn(column);
      if column.Err? {
        return Err(column.error);
      }
      var c := column.value;
      var name := headers[c];
      headers := RemoveAt(headers, c);
      columnMap := CollectIndex(headers);
      var k := 0;
      while k < |rows|
        modifies this`rows
        invariant k <= |rows| == |old(rows)|
        invariant forall i :: 0 <= i < |rows| ==> rows[i] == if i < k then RemoveCell(old(rows)[i], c) else old(rows)[i]
      {
        if c < |rows[k]| {
          rows := rows[k := RemoveAt(rows[k], c)];
        }
        k := k + 1;
      }
      r := Ok(name);
    }

    /** Renames the last column of that name. The index stays true to the headers
        exactly when no other column had the old name too. */
    method RenameColumn(oldName: string, newName: string) returns (r: Result<(), CsvError>)
      requires Valid()
      modifies this`headers, this`columnMap
      ensures r.Ok? <==> oldName in old(headers) && (newName !in old(headers) || oldName == newName)
      ensures r.Err? ==> headers == old(headers) && columnMap == old(columnMap)
      ensures r.Ok? ==> headers == old(headers)[old(columnMap)[oldName] := newName]
      ensures r.Ok? ==> columnMap == (old(columnMap) - {oldName})[newName := old(columnMap)[oldName]]
      ensures r.Ok? ==> (Valid() <==> oldName == newName || Once(old(headers), oldName))
    {
      if oldName !in columnMap {
        return Err(ColumnNotFound);
      }
      assert oldName in headers;
      if newName in columnMap && oldName != newName {
        assert newName in headers;
        return Err(ColumnExists);
      }
      RenamedIndex(headers, columnMap, oldName, newName);
      var i := columnMap[oldName];
      columnMap := columnMap - {oldName};
      columnMap := columnMap[newName := i];
      headers := headers[i := newName];
      r := Ok(());
    }

    /** `add_rows_from_args`: on an error the rows before the bad one are already in
        the table, which the caller then throws away. */
    method AddRows(items: seq<RowArg>) returns (r: Result<nat, CsvError>)
      requires Valid() && forall i :: 0 <= i < |items| ==> Distinct(items[i])
      modifies this`rows
      ensures Valid()
      ensures r.Ok? <==> items != [] && forall i :: 0 <= i < |items| ==> Fits(headers, items[i])
      ensures old(rows) <= rows && |rows| <= |old(rows)| + |items|
      ensures r.Ok? ==> r.value == |items| && |rows| == |old(rows)| + |items|
      ensures forall i :: |old(rows)| <= i < |rows| ==> Stores(headers, columnMap, items[i - |old(rows)|], rows[i])
    {
      if items == [] {
        return Err(NoRows);
      }
      var k := 0;
      while k < |items|
        invariant k <= |items| && |rows| == |old(rows)| + k && old(rows) <= rows
        invariant forall i :: 0 <= i < k ==> Fits(headers, items[i])
        invariant forall i :: |old(rows)| <= i < |rows| ==> Stores(headers, columnMap, items[i - |old(rows)|], rows[i])
      {
        var row := BuildRow(items[k]);
        if row.Err? {
          return Err(row.error);
        }
        rows := rows + [row.value];
        k := k + 1;
      }
      r := Ok(k);
    }

    method BuildRow(item: RowArg) returns (r: Result<Row, CsvError>)
      requires Valid() && Distinct(item)
      ensures r.Ok? <==> Fits(headers, item)
      ensures r.Ok? ==> Stores(headers, columnMap, item, r.value)
    {
      match item
      case Listed(cells) =>
        r := if |cells| == |headers| then Ok(cells) else Err(BadRow);
      case Neither => r := Err(BadRow);
      case Named(fields) =>
        var row := seq(|headers|, _ => "");
        for k := 0 to |fields|
          invariant forall i :: 0 <= i < k ==> fields[i].0 in headers
          invariant StoresFirst(headers, columnMap, fields, k, row)
        {
          var column := FindColumn(fields[k].0);
          if column.Err? {
            assert fields[k].0 !in headers;
            return Err(column.error);
          }
          assert fields[k].0 in headers;
          StoreNext(headers, columnMap, fields, k, row);
          row := row[column.value := fields[k].1];
        }
        r := Ok(row);
    }
  }

  ghost predicate Distinct(item: RowArg) {
    item.Named? ==> forall i, j :: 0 <= i < j < |item.fields| ==> item.fields[i].0 != item.fields[j].0
  }

  /** The new row names known columns only, or lists one cell for each header. */
  ghost predicate Fits(headers: seq<string>, item: RowArg) {
    match item
    case Named(fields) => forall i :: 0 <= i < |fields| ==> fields[i].0 in headers
    case Listed(cells) => |cells| == |headers|
    case Neither => false
  }

  /** The row that the request describes: named cells stand in their columns and all
      other cells are empty. */
  ghost predicate Stores(headers: seq<string>, m: map<string, nat>, item: RowArg, row: Row) {
    match item
    case Named(fields) => StoresFirst(headers, m, fields, |fields|, row)
    case Listed(cells) => row == cells
    case Neither => false
  }

  ghost predicate StoresFirst(headers: seq<string>, m: map<string, nat>, fields: seq<(string, string)>,
                              k: nat, row: Row)
  {
    && |row| == |headers| && k <= |fields|
    && (forall i :: 0 <= i < k ==> fields[i].0 in m && Cell(row, m[fields[i].0]) == fields[i].1)
    && forall c :: 0 <= c < |row| ==> row[c] == "" || exists i :: 0 <= i < k && fields[i].0 in m && m[fields[i].0] == c
  }

  lemma StoreNext(headers: seq<string>, m: map<string, nat>, fields: seq<(string, string)>, k: nat, row: Row)
    requires IsIndex(headers, m) && StoresFirst(headers, m, fields, k, row)
    requires Distinct(Named(fields)) && k < |fields| && fields[k].0 in m
    ensures m[fields[k].0] < |row| && StoresFirst(headers, m, fields, k + 1, row[m[fields[k].0] := fields[k].1])
  {
    var c := m[fields[k].0];
    var row' := row[c := fields[k].1];
    assert LastAt(headers, fields[k].0, c);
    forall i | 0 <= i < k + 1
      ensures fields[i].0 in m && Cell(row', m[fields[i].0]) == fields[i].1
    {
      if i < k {
        assert LastAt(headers, fields[i].0, m[fields[i].0]);
      }
    }
    forall d | 0 <= d < |row'|
      ensures row'[d] == "" || exists i :: 0 <= i < k + 1 && fields[i].0 in m && m[fields[i].0] == d
    {
      if d != c && row[d] != "" {
        var i :| 0 <= i < k && fields[i].0 in m && m[fields[i].0] == d;
        assert i < k + 1;
      }
    }
  }

  /** On a table whose rows are as wide as the header, adding a fresh column and
      removing it again changes nothing. */
  method AddThenRemoveColumn(table: CsvData, name: string, value: string)
    requires table.Valid() && name !in table.headers
    requires forall i :: 0 <= i < |table.rows| ==> |table.rows[i]| == |table.headers|
    modifies table
    ensures table.headers == old(table.headers) && table.rows == old(table.rows)
    ensures table.columnMap == old(table.columnMap)
  {
    ghost var width, rows, index := |table.headers|, table.rows, table.columnMap;
    var added := table.AddColumn(name, value);
    assert name in table.headers by {
      assert table.headers[width] == name;
    }
    assert LastAt(table.headers, name, table.columnMap[name]);
    var removed := table.RemoveColumn(ByName(name));
    assert table.headers == old(table.headers);
    forall i | 0 <= i < |rows|
      ensures table.rows[i] == rows[i]
    {
      AddThenRemove(rows[i], width, value);
    }
    IndexUnique(table.headers, table.columnMap, index);
  }

  /** The name stands in the headers at one place at most. */
  ghost predicate Once(headers: seq<string>, name: string) {
    forall i, j :: 0 <= i < |headers| && 0 <= j < |headers| && headers[i] == name && headers[j] == name ==> i == j
  }

  lemma RenamedIndex(headers: seq<string>, m: map<string, nat>, oldName: string, newName: string)
    requires IsIndex(headers, m) && oldName in m && (newName !in m || oldName == newName)
    ensures IsIndex(headers[m[oldName] := newName], (m - {oldName})[newName := m[oldName]]) <==>
              oldName == newName || Once(headers, oldName)
  {
    var i := m[oldName];
    var headers', m' := headers[i := newName], (m - {oldName})[newName := i];
    assert LastAt(headers, oldName, i);
    if oldName == newName {
      assert headers' == headers && m' == m;
    } else if Once(headers, oldName) {
      RenamedOnce(headers, m, oldName, newName);
    } else {
      var j :| 0 <= j < |headers| && headers[j] == oldName && j != i;
      assert headers'[j] == oldName && oldName !in m';
    }
  }

  /** Of two columns named "a" the second is renamed, and the first is not found any more. */
  method RenameOneOfTwo() returns (table: CsvData, lost: Result<nat, CsvError>)
    ensures fresh(table) && table.headers == ["a", "b"]
    ensures lost == Err(ColumnNotFound) && !table.Valid()
  {
    table := new CsvData.Parse(["a", "a"], []);
    assert table.headers[0] == "a" && table.headers[1] == "a";
    assert LastAt(table.headers, "a", table.columnMap["a"]);
    assert "b"[0] != "a"[0];
    var renamed := table.RenameColumn("a", "b");
    assert table.headers == ["a", "b"];
    lost := table.FindColumn("a");
    assert table.headers[0] == "a";
  }

  lemma RenamedOnce(headers: seq<string>, m: map<string, nat>, oldName: string, newName: string)
    requires IsIndex(headers, m) && oldName in m && newName !in m && Once(headers, oldName)
    ensures IsIndex(headers[m[oldName] := newName], (m - {oldName})[newName := m[oldName]])
  {
    var i := m[oldName];
    var headers', m' := headers[i := newName], (m - {oldName})[newName := i];
    assert newName !in headers;
    assert LastAt(headers, oldName, i);
    forall h | h in m'
      ensures LastAt(headers', h, m'[h])
    {
      if h != newName {
        assert LastAt(headers, h, m[h]);
      }
    }
    forall h | h in headers'
      ensures h in m'
    {
      var k :| 0 <= k < |headers'| && headers'[k] == h;
      if k != i {
        assert headers[k] in headers;
      }
    }
  }
}
