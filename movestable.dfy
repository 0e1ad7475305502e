/** The moves editor of drool/mon-moves.js: a table of moves whose columns
    are derived from a CSV header line (Implementation hidden, a Status
    column added), whose rows can be added, edited and sorted by a header
    click, and which is written back as CSV. Rows are tinted by a hue
    derived from the monster's name. */
module MovesTable {
  import opened Text
  import opened JsValues
  import opened Csv
  import Sorting
  import StatsTable

  type Column = StatsTable.Column

  // ---------------------------------------------------------------------
  // Columns

  /** The column parseCSV shows for a header: Power, Accuracy and Stamina
      are numbers, every other header is text, and all are editable. */
  function ColumnOf(h: string): (c: Column)
    ensures c.name == h && c.editable
    ensures c.isNumber <==> h == "Power" || h == "Accuracy" || h == "Stamina"
  {
    StatsTable.Column(h, IsMoveNumberHeader(h), true)
  }

  /** The column parseCSV adds after the headers. */
  const StatusColumn: Column := StatsTable.Column("Status", false, false)

  /** The header columns, in order, without Implementation. */
  function HeaderColumns(headers: seq<string>): seq<Column>
  {
    if headers == [] then []
    else
      var h := headers[|headers| - 1];
      HeaderColumns(headers[..|headers| - 1]) + (if h == "Implementation" then [] else [ColumnOf(h)])
  }

  /** The columns parseCSV sets. */
  function ParsedColumns(headers: seq<string>): seq<Column>
  {
    HeaderColumns(headers) + [StatusColumn]
  }

  /** The header columns are exactly the columns of the headers other
      than Implementation, each typed by its name. */
  lemma {:induction false} HeaderColumnsMembers(headers: seq<string>)
    ensures forall h :: ColumnOf(h) in HeaderColumns(headers) <==> h in headers && h != "Implementation"
    ensures forall c :: c in HeaderColumns(headers) ==> c == ColumnOf(c.name)
  {
    if headers != [] {
      var init := headers[..|headers| - 1];
      HeaderColumnsMembers(init);
      assert headers == init + [headers[|headers| - 1]];
    }
  }

  /** The shown columns: every header but Implementation, typed by its
      name, then a text Status column that cannot be edited. */
  lemma ParsedColumnsFacts(headers: seq<string>)
    ensures var r := ParsedColumns(headers);
      && |r| >= 1 && r[|r| - 1] == StatusColumn
      && !r[|r| - 1].editable && !r[|r| - 1].isNumber
      && (forall h :: h != "Status" ==> (ColumnOf(h) in r <==> h in headers && h != "Implementation"))
      && (forall k :: 0 <= k < |r| ==> r[k].isNumber == IsMoveNumberHeader(r[k].name))
      && (forall k :: 0 <= k < |r| ==> r[k].name != "Implementation")
  {
    HeaderColumnsMembers(headers);
    var r := ParsedColumns(headers);
    forall k | 0 <= k < |r|
      ensures r[k].isNumber == IsMoveNumberHeader(r[k].name) && r[k].name != "Implementation"
    {
      if k < |r| - 1 {
        assert r[k] in HeaderColumns(headers);
        assert ColumnOf(r[k].name) in HeaderColumns(headers);
      }
    }
  }

  /** Columns typed by their names share a type per name. */
  lemma TypedByNameNamesTyped(columns: seq<Column>)
    requires forall k :: 0 <= k < |columns| ==> columns[k].isNumber == IsMoveNumberHeader(columns[k].name)
    ensures StatsTable.NamesTyped(columns)
  {
  }

  /** The columns handleFileImport sets: every header, as editable text. */
  function ImportColumns(headers: seq<string>): (r: seq<Column>)
    ensures |r| == |headers|
    ensures forall k :: 0 <= k < |r| ==> r[k] == StatsTable.Column(headers[k], false, true)
  {
    seq(|headers|, k requires 0 <= k < |headers| => StatsTable.Column(headers[k], false, true))
  }

  // ---------------------------------------------------------------------
  // Rows

  /** `values[index]?.trim() || ""`. */
  function FieldValue(values: seq<string>, index: nat): string
  {
    Trim(OrEmpty(FieldAt(values, index)))
  }

  /** The value stored under a header: with `numbers`, a number header
      stores `parseFloat(value) || 0`; otherwise the text. */
  function CellFor(numbers: bool, h: string, value: string): Cell
  {
    if numbers && IsMoveNumberHeader(h) then Num(StatsTable.NumberInput(value)) else Str(value)
  }

  /** The cell of each header for the fields of a data line. */
  function Cells(headers: seq<string>, values: seq<string>, numbers: bool): (r: seq<Cell>)
    ensures |r| == |headers|
    ensures forall k :: 0 <= k < |r| ==> r[k] == CellFor(numbers, headers[k], FieldValue(values, k))
  {
    seq(|headers|, k requires 0 <= k < |headers| => CellFor(numbers, headers[k], FieldValue(values, k)))
  }

  /** The row object after the first `n` headers have been assigned
      their cells. */
  function RowFor(headers: seq<string>, cells: seq<Cell>, n: nat): Row
    requires n <= |headers| == |cells|
  {
    if n == 0 then map[]
    else RowFor(headers, cells, n - 1)[headers[n - 1] := cells[n - 1]]
  }

  lemma {:induction false} RowForKeys(headers: seq<string>, cells: seq<Cell>, n: nat)
    requires n <= |headers| == |cells|
    ensures RowFor(headers, cells, n).Keys == set k | 0 <= k < n :: headers[k]
  {
    if n > 0 {
      RowForKeys(headers, cells, n - 1);
      assert (set k | 0 <= k < n :: headers[k]) ==
        (set k | 0 <= k < n - 1 :: headers[k]) + {headers[n - 1]};
    }
  }

  /** A header takes the cell at its last position. */
  lemma {:induction false} RowForLastWins(headers: seq<string>, cells: seq<Cell>, n: nat, k: nat)
    requires k < n <= |headers| == |cells|
    requires forall j :: k < j < n ==> headers[j] != headers[k]
    ensures headers[k] in RowFor(headers, cells, n)
    ensures RowFor(headers, cells, n)[headers[k]] == cells[k]
  {
    if k < n - 1 {
      RowForLastWins(headers, cells, n - 1, k);
    }
  }

  /** The row of a data line's fields. */
  function LineRow(headers: seq<string>, values: seq<string>, numbers: bool): Row
  {
    RowFor(headers, Cells(headers, values, numbers), |headers|)
  }

  /** JavaScript truthiness of a cell. */
  predicate Truthy(c: Cell)
  {
    match c
    case Num(x) => x != 0.0
    case NaN => false
    case Str(s) => s != ""
  }

  /** `rowData["Implementation"] || "No"`. */
  function StatusOf(row: Row): Cell
  {
    if "Implementation" in row && Truthy(row["Implementation"]) then row["Implementation"] else Str("No")
  }

  /** The row parseCSV builds from the fields of a data line. */
  function ParsedRow(headers: seq<string>, values: seq<string>): Row
  {
    var r := LineRow(headers, values, true);
    r["Status" := StatusOf(r)]
  }

  /** The headers of a table, as a set. */
  function HeaderSet(headers: seq<string>): set<string>
  {
    set j | 0 <= j < |headers| :: headers[j]
  }

  /** A parsed row holds every header and Status. */
  lemma ParsedRowKeys(headers: seq<string>, values: seq<string>)
    ensures ParsedRow(headers, values).Keys == HeaderSet(headers) + {"Status"}
  {
    RowForKeys(headers, Cells(headers, values, true), |headers|);
  }

  /** Each header other than Status keeps the field at its last position,
      Power, Accuracy and Stamina as `parseFloat || 0`; Status is the
      Implementation field, or "No" when that is empty. */
  lemma ParsedRowCell(headers: seq<string>, values: seq<string>, k: nat)
    requires k < |headers| && forall j :: k < j < |headers| ==> headers[j] != headers[k]
    ensures headers[k] in ParsedRow(headers, values)
    ensures headers[k] != "Status" ==>
      ParsedRow(headers, values)[headers[k]] == CellFor(true, headers[k], FieldValue(values, k))
    ensures headers[k] == "Implementation" ==>
      ParsedRow(headers, values)["Status"] ==
        (if FieldValue(values, k) == "" then Str("No") else Str(FieldValue(values, k)))
  {
    var cells := Cells(headers, values, true);
    var r := LineRow(headers, values, true);
    RowForLastWins(headers, cells, |headers|, k);
    assert r[headers[k]] == cells[k];
    if headers[k] == "Implementation" {
      ImplementationStatus(r, FieldValue(values, k));
    }
  }

  lemma ImplementationStatus(r: Row, v: string)
    requires "Implementation" in r && r["Implementation"] == CellFor(true, "Implementation", v)
    ensures StatusOf(r) == (if v == "" then Str("No") else Str(v))
  {
    assert !IsMoveNumberHeader("Implementation");
  }

  lemma StatusWithoutImplementation(headers: seq<string>, values: seq<string>)
    requires "Implementation" !in headers
    ensures ParsedRow(headers, values)["Status"] == Str("No")
  {
    RowForKeys(headers, Cells(headers, values, true), |headers|);
    assert "Implementation" !in LineRow(headers, values, true);
  }

  /** The rows a data line contributes: none for a blank line. parseCSV
      reads the fields with the quote-aware tokenizer and adds Status;
      handleFileImport splits at every comma and keeps text. */
  function LineRows(headers: seq<string>, line: string, parsed: bool): seq<Row>
  {
    var t := Trim(line);
    if t == "" then []
    else if parsed then [ParsedRow(headers, Fields(t))]
    else [LineRow(headers, Split(t, ','), false)]
  }

  function TableRows(headers: seq<string>, lines: seq<string>, parsed: bool): seq<Row>
  {
    if lines == [] then []
    else TableRows(headers, lines[..|lines| - 1], parsed) + LineRows(headers, lines[|lines| - 1], parsed)
  }

  lemma TableRowsStep(headers: seq<string>, lines: seq<string>, parsed: bool, i: nat)
    requires 1 <= i < |lines|
    ensures TableRows(headers, lines[1..i + 1], parsed) ==
      TableRows(headers, lines[1..i], parsed) + LineRows(headers, lines[i], parsed)
  {
    assert lines[1..i + 1][..i - 1] == lines[1..i];
  }

  /** Every row holds exactly `keys`. */
  predicate Keyed(rows: seq<Row>, keys: set<string>)
  {
    forall k :: 0 <= k < |rows| ==> rows[k].Keys == keys
  }

  /** The keys of the rows of a table. */
  function TableKeys(headers: seq<string>, parsed: bool): set<string>
  {
    HeaderSet(headers) + (if parsed then {"Status"} else {})
  }

  lemma LineRowsShape(headers: seq<string>, line: string, parsed: bool)
    ensures |LineRows(headers, line, parsed)| == (if Trim(line) == "" then 0 else 1)
    ensures Keyed(LineRows(headers, line, parsed), TableKeys(headers, parsed))
  {
    var t := Trim(line);
    if t != "" {
      if parsed {
        RowForKeys(headers, Cells(headers, Fields(t), true), |headers|);
      } else {
        RowForKeys(headers, Cells(headers, Split(t, ','), false), |headers|);
      }
    }
  }

  lemma KeyedAppend(a: seq<Row>, b: seq<Row>, keys: set<string>)
    requires Keyed(a, keys) && Keyed(b, keys)
    ensures Keyed(a + b, keys)
  {
    assert forall k :: |a| <= k < |a + b| ==> (a + b)[k] == b[k - |a|];
  }

  /** Each non-blank data line gives one row and blank lines none; every
      row holds exactly the headers, plus Status when parsed. */
  lemma {:induction false} TableRowsShape(headers: seq<string>, lines: seq<string>, parsed: bool)
    ensures |TableRows(headers, lines, parsed)| == StatsTable.NonBlank(lines)
    ensures Keyed(TableRows(headers, lines, parsed), TableKeys(headers, parsed))
  {
    if lines != [] {
      var init := lines[..|lines| - 1];
      TableRowsShape(headers, init, parsed);
      LineRowsShape(headers, lines[|lines| - 1], parsed);
      KeyedAppend(TableRows(headers, init, parsed), LineRows(headers, lines[|lines| - 1], parsed), TableKeys(headers, parsed));
    }
  }

  // ---------------------------------------------------------------------
  // Sorting and editing

  /** `String(value)` with missing values read as "". */
  function TextOf(row: Row, name: string): string
  {
    if name !in row then ""
    else match row[name] case Str(s) => s case NaN => "NaN" case Num(_) => ""
  }

  function TextKey(name: string): Row -> Sorting.Key
  {
    (row: Row) => Sorting.Word(Sorting.Codes(TextOf(row, name)))
  }

  /** sortData compares `parseFloat || 0` under a number column and the
      text otherwise, also when no column has that name. */
  function SortKeyFor(columns: seq<Column>, name: string): Row -> Sorting.Key
  {
    if IsNumberColumn(columns, name) then StatsTable.NumberKey(name) else TextKey(name)
  }

  /** `columns.find(col => col.name === name)?.type === "number"`. */
  predicate IsNumberColumn(columns: seq<Column>, name: string)
  {
    var c := StatsTable.FindColumn(columns, name);
    c.Some? && c.value.isNumber
  }

  /** The cell updateData stores for the trimmed text. */
  function EditCell(columns: seq<Column>, name: string, value: string): Cell
  {
    if IsNumberColumn(columns, name) then Num(StatsTable.NumberInput(value)) else Str(value)
  }

  /** After an edit the cell sorts as what was typed: under a number
      column by `parseFloat(value) || 0`, otherwise by the text. */
  lemma EditReadsBack(columns: seq<Column>, row: Row, name: string, value: string)
    ensures var r := row[name := EditCell(columns, name, value)];
      && FieldNumber(r, name) == StatsTable.NumberInput(value)
      && (!IsNumberColumn(columns, name) ==> TextOf(r, name) == value)
  {
    StatsTable.NumberInputReadsAsText(value);
  }

  // ---------------------------------------------------------------------
  // Export

  /** An exported cell: a string quoted when it needs it, a number as
      `render` writes it (JavaScript's number-to-string conversion). */
  function ExportCell(c: Cell, render: real -> string): string
  {
    match c
    case Str(s) => QuoteField(s)
    case Num(x) => render(x)
    case NaN => "NaN"
  }

  /** `row[header] !== undefined ? row[header] : ""`. */
  function CellAt(row: Row, h: string): Cell
  {
    if h in row then row[h] else Str("")
  }

  function ExportRow(row: Row, headers: seq<string>, render: real -> string): string
  {
    Join(seq(|headers|, k requires 0 <= k < |headers| => ExportCell(CellAt(row, headers[k]), render)), ',')
  }

  /** The exported headers: the first row's keys, in the order given,
      without Status. */
  function ExportHeaders(keys: seq<string>): (r: seq<string>)
    ensures forall h :: h in r <==> h in keys && h != "Status"
  {
    if keys == [] then []
    else ExportHeaders(keys[..|keys| - 1]) + (if keys[|keys| - 1] == "Status" then [] else [keys[|keys| - 1]])
  }

  /** exportToCsv: the header line then one line per row, joined by
      newlines. `keys` is the key order of the first row, none without
      rows. */
  function ExportCsv(data: seq<Row>, keys: seq<string>, render: real -> string): (r: string)
    requires data == [] ==> keys == []
    requires data != [] ==> forall h :: h in keys <==> h in data[0]
  {
    var headers := ExportHeaders(keys);
    Join([Join(headers, ',')] + seq(|data|, i requires 0 <= i < |data| => ExportRow(data[i], headers, render)), '\n')
  }

  /** A row whose exported cells are all strings reads back, through the
      quote-aware tokenizer, as those strings. */
  lemma ExportRowRoundTrip(row: Row, headers: seq<string>, render: real -> string)
    requires |headers| >= 1
    requires forall k :: 0 <= k < |headers| ==> CellAt(row, headers[k]).Str?
    ensures Fields(ExportRow(row, headers, render)) ==
      seq(|headers|, k requires 0 <= k < |headers| => CellAt(row, headers[k]).s)
  {
    var texts := seq(|headers|, k requires 0 <= k < |headers| => CellAt(row, headers[k]).s);
    assert seq(|texts|, k requires 0 <= k < |texts| => QuoteField(texts[k])) ==
      seq(|headers|, k requires 0 <= k < |headers| => ExportCell(CellAt(row, headers[k]), render));
    ExportRoundTrip(texts);
  }

  // ---------------------------------------------------------------------
  // The editor

  /** The inner forEach of parseCSV and handleFileImport. */
  method ReadRow(headers: seq<string>, values: seq<string>, numbers: bool) returns (rowData: Row)
    ensures rowData == LineRow(headers, values, numbers)
  {
    ghost var cells := Cells(headers, values, numbers);
    rowData := map[];
    for index := 0 to |headers|
      invariant rowData == RowFor(headers, cells, index)
    {
      var value := FieldValue(values, index);
      rowData := rowData[headers[index] := CellFor(numbers, headers[index], value)];
    }
  }

  /** The data loop of parseCSV (`parsed`) or handleFileImport. */
  method ReadRows(headers: seq<string>, lines: seq<string>, parsed: bool) returns (rows: seq<Row>)
    requires |lines| >= 1
    ensures rows == TableRows(headers, lines[1..], parsed)
  {
    rows := [];
    for i := 1 to |lines|
      invariant rows == TableRows(headers, lines[1..i], parsed)
    {
      TableRowsStep(headers, lines, parsed, i);
      var line := Trim(lines[i]);
      if line == "" {
        continue;
      }
      var rowData;
      if parsed {
        rowData := ReadRow(headers, Fields(line), true);
        rowData := rowData["Status" := StatusOf(rowData)];
      } else {
        rowData := ReadRow(headers, Split(line, ','), false);
      }
      rows := rows + [rowData];
    }
    assert lines[1..|lines|] == lines[1..];
  }

  class MovesEditor {
    var columns: seq<Column>
    var data: seq<Row>
    /** The sorted column, none before the first header click. */
    var columnToSort: Option<string>
    /** Whether the last header click sorted descending. */
    var columnDirection: bool

    /** Columns of one name share a type, so a new row's cells agree
        with every column. */
    predicate Valid()
      reads this
    {
      StatsTable.NamesTyped(columns)
    }

    /** The editor before any file is loaded. */
    constructor ()
      ensures Valid()
      ensures columns == [] && data == [] && columnToSort == None && !columnDirection
    {
      columns := [];
      data := [];
      columnToSort := None;
      columnDirection := false;
    }

    /** parseCSV: with fewer than two lines nothing changes; otherwise the
        columns come from the header line and the rows from the non-blank
        data lines. */
    method ParseCsv(csvContent: string)
      requires Valid()
      modifies this
      ensures Valid()
      ensures var lines := SplitLines(csvContent);
        if |lines| < 2 then columns == old(columns) && data == old(data)
        else columns == ParsedColumns(Headers(lines[0])) && data == TableRows(Headers(lines[0]), lines[1..], true)
      ensures columnToSort == old(columnToSort) && columnDirection == old(columnDirection)
    {
      var lines := SplitLines(csvContent);
      if |lines| < 2 {
        return;
      }
      var headers := Headers(lines[0]);
      ParsedColumnsFacts(headers);
      TypedByNameNamesTyped(ParsedColumns(headers));
      columns := ParsedColumns(headers);
      data := ReadRows(headers, lines, true);
    }

    /** handleFileImport on the file's text: lines split at "\n" only,
        every column text, fields split at every comma, no Status. */
    method ImportFile(text: string)
      requires Valid()
      modifies this
      ensures Valid()
      ensures var lines := Split(text, '\n');
        if |lines| < 2 then columns == old(columns) && data == old(data)
        else columns == ImportColumns(Headers(lines[0])) && data == TableRows(Headers(lines[0]), lines[1..], false)
      ensures columnToSort == old(columnToSort) && columnDirection == old(columnDirection)
    {
      var lines := Split(text, '\n');
      if |lines| < 2 {
        return;
      }
      var headers := Headers(lines[0]);
      columns := ImportColumns(headers);
      data := ReadRows(headers, lines, false);
    }

    /** sortData: the stable sort by the column's key, ascending or
        descending; the rows are permuted into that order. */
    method SortData(columnName: string, ascending: bool)
      modifies this
      ensures columns == old(columns) && columnToSort == old(columnToSort)
      ensures columnDirection == old(columnDirection)
      ensures data == Sorting.SortByKey(old(data), SortKeyFor(columns, columnName), ascending)
      ensures multiset(data) == multiset(old(data))
      ensures Sorting.SortedBy(data, SortKeyFor(columns, columnName), ascending)
    {
      var key := SortKeyFor(columns, columnName);
      Sorting.SortByKeyCorrect(data, key, ascending);
      data := Sorting.SortByKey(data, key, ascending);
    }

    /** A header click: the sorted column clicked again flips the
        direction, another column becomes the sorted one with the
        direction cleared, and the rows are sorted ascending exactly when
        the direction is clear. Read as the flag "ascending", this is the
        shared header toggle. */
    method HeaderClick(index: nat)
      requires Valid() && index < |columns|
      modifies this
      ensures columns == old(columns) && Valid()
      ensures (columnToSort, !columnDirection) ==
        Sorting.Toggle(old(columnToSort), !old(columnDirection), columns[index].name)
      ensures data == Sorting.SortByKey(old(data), SortKeyFor(columns, columns[index].name), !columnDirection)
    {
      var columnName := columns[index].name;
      if columnToSort == Some(columnName) {
        columnDirection := !columnDirection;
      } else {
        columnToSort := Some(columnName);
        columnDirection := false;
      }
      SortData(columnName, !columnDirection);
    }

    /** addRow: a row with 0 under every number column and "" under every
        text column appended. */
    method AddRow()
      requires Valid()
      modifies this
      ensures Valid()
      ensures data == old(data) + [StatsTable.NewRow(columns)]
      ensures forall k :: 0 <= k < |columns| ==>
        columns[k].name in data[|data| - 1] &&
        data[|data| - 1][columns[k].name] == (if columns[k].isNumber then Num(0.0) else Str(""))
      ensures columns == old(columns) && columnToSort == old(columnToSort)
      ensures columnDirection == old(columnDirection)
    {
      var newRow: Row := map[];
      for i := 0 to |columns|
        invariant newRow == StatsTable.NewRow(columns[..i])
      {
        assert columns[..i + 1][..i] == columns[..i];
        newRow := newRow[columns[i].name := StatsTable.BlankCell(columns[i])];
      }
      assert columns[..|columns|] == columns;
      StatsTable.NewRowCells(columns);
      data := data + [newRow];
    }

    /** updateData: the trimmed text stored, as `parseFloat || 0` under a
        number column; no other cell changes. */
    method UpdateData(rowIndex: nat, columnName: string, text: string)
      requires rowIndex < |data|
      modifies this
      ensures columns == old(columns) && columnToSort == old(columnToSort)
      ensures columnDirection == old(columnDirection)
      ensures data == old(data)[rowIndex := old(data)[rowIndex][columnName := EditCell(columns, columnName, Trim(text))]]
    {
      var value := Trim(text);
      var column := StatsTable.FindColumn(columns, columnName);
      if column.Some? && column.value.isNumber {
        assert IsNumberColumn(columns, columnName);
        data := data[rowIndex := data[rowIndex][columnName := Num(StatsTable.NumberInput(value))]];
      } else {
        data := data[rowIndex := data[rowIndex][columnName := Str(value)]];
      }
    }
  }

  // ---------------------------------------------------------------------
  // Row tints

  /** ToInt32: the residue modulo 2^32 read as a signed 32-bit number. */
  function ToInt32(x: int): (r: int)
    ensures -0x8000_0000 <= r < 0x8000_0000
    ensures (r - x) % 0x1_0000_0000 == 0
  {
    var m := x % 0x1_0000_0000;
    if m >= 0x8000_0000 then m - 0x1_0000_0000 else m
  }

  /** `hash << 17`: the 32-bit left shift of ToInt32(hash). */
  function Shl17(x: int): (r: int)
    ensures -0x8000_0000 <= r < 0x8000_0000
  {
    ToInt32(x * 0x2_0000)
  }

  function Abs(x: int): nat
  {
    if x < 0 then -x else x
  }

  /** The name hash before `Math.abs`: per character,
      `code * 23 + ((hash << 17) - hash)`. */
  function RawHash(s: string): int
  {
    if s == [] then 0
    else
      var h := RawHash(s[..|s| - 1]);
      (s[|s| - 1] as int) * 23 + (Shl17(h) - h)
  }

  /** Each character moves the hash by less than 2^32, so for names shorter
      than 2^21 characters it stays below 2^53 and JavaScript's double
      arithmetic computes it exactly. */
  lemma {:induction false} RawHashBound(s: string)
    ensures Abs(RawHash(s)) <= |s| * 0x1_0000_0000
  {
    if s != [] {
      RawHashBound(s[..|s| - 1]);
    }
  }

  /** The hash after `j` rehashes `hash * 17 + 23`. */
  function Rehash(hash: nat, j: nat): nat
  {
    if j == 0 then hash else Rehash(hash, j - 1) * 17 + 23
  }

  /** The hue tried at attempt `j`. */
  function Candidate(hash: nat, j: nat): (r: int)
    ensures 0 <= r < 360
  {
    Rehash(hash, j) % 360
  }

  /** The circular distance between two hues. */
  function HueDistance(a: int, b: int): int
  {
    var d := Abs(a - b);
    if d < 360 - d then d else 360 - d
  }

  const HueMinDistance: int := 35

  predicate TooClose(hue: int, used: set<int>)
  {
    exists u :: u in used && HueDistance(hue, u) < HueMinDistance
  }

  /** The number of rehashes made from attempt `j` on: the loop stops at
      the first hue that is not too close to a used one (or when nothing
      is used), and after five attempts. */
  function Attempts(hash: nat, used: set<int>, j: nat): nat
    requires j <= 5
    decreases 5 - j
  {
    if j < 5 && !(!TooClose(Candidate(hash, j), used) || |used| == 0) then Attempts(hash, used, j + 1) else j
  }

  /** At most five rehashes are made; every hue skipped is too close to a
      used hue, and the hue kept is distinct enough unless the attempts
      ran out. */
  lemma {:induction false} AttemptsFacts(hash: nat, used: set<int>, j: nat)
    requires j <= 5
    ensures j <= Attempts(hash, used, j) <= 5
    ensures forall i :: j <= i < Attempts(hash, used, j) ==> TooClose(Candidate(hash, i), used)
    ensures Attempts(hash, used, j) < 5 ==> !TooClose(Candidate(hash, Attempts(hash, used, j)), used)
    decreases 5 - j
  {
    if j < 5 && TooClose(Candidate(hash, j), used) && |used| != 0 {
      AttemptsFacts(hash, used, j + 1);
    }
  }

  /** The hash loop of getMonsterColor. */
  method NameHash(name: string) returns (hash: int)
    ensures hash == RawHash(name)
  {
    hash := 0;
    for i := 0 to |name|
      invariant hash == RawHash(name[..i])
    {
      assert name[..i + 1][..i] == name[..i];
      hash := (name[i] as int) * 23 + (Shl17(hash) - hash);
    }
    assert name[..|name|] == name;
  }

  /** The rehash loop of getMonsterColor. */
  method ChooseHue(hash0: nat, used: set<int>) returns (hue: int, attempts: nat)
    ensures attempts == Attempts(hash0, used, 0)
    ensures hue == Candidate(hash0, attempts)
  {
    var hash: nat := hash0;
    hue := hash % 360;
    attempts := 0;
    while attempts < 5
      invariant attempts <= 5
      invariant hash == Rehash(hash0, attempts) && hue == Candidate(hash0, attempts)
      invariant Attempts(hash0, used, 0) == Attempts(hash0, used, attempts)
      decreases 5 - attempts
    {
      var tooClose := exists u :: u in used && HueDistance(hue, u) < HueMinDistance;
      if !tooClose || |used| == 0 {
        break;
      }
      hash := hash * 17 + 23;
      hue := hash % 360;
      attempts := attempts + 1;
    }
  }

  /** The hues renderMovesTable hands out, by monster name. */
  class MonsterHues {
    var hues: map<string, int>

    predicate Valid()
      reads this
    {
      forall n :: n in hues ==> 0 <= hues[n] < 360
    }

    constructor ()
      ensures Valid() && hues == map[]
    {
      hues := map[];
    }

    /** getMonsterColor, returning the hue of the colour (none for an
        empty name): a known name keeps its hue; a new name gets the
        hue the rehash loop chooses against the hues in use, and keeps it. */
    method MonsterColor(name: string) returns (hue: Option<int>)
      requires Valid()
      modifies this
      ensures Valid()
      ensures name == "" ==> hue == None && hues == old(hues)
      ensures name != "" && name in old(hues) ==> hue == Some(old(hues)[name]) && hues == old(hues)
      ensures name != "" && name !in old(hues) ==>
        var hash := Abs(RawHash(name));
        hue == Some(Candidate(hash, Attempts(hash, old(hues).Values, 0))) && hues == old(hues)[name := hue.value]
    {
      if name == "" {
        return None;
      }
      if name in hues {
        return Some(hues[name]);
      }
      var hash := NameHash(name);
      var h, _ := ChooseHue(Abs(hash), hues.Values);
      hues := hues[name := h];
      hue := Some(h);
    }
  }
}
