/** The base stats editor of the mon tools (drool/mon-stats.js): a table of
    mons whose columns are typed when a CSV file is imported, whose BST
    column is kept equal to the sum of six stats, and whose rows can be
    added, deleted, edited and sorted by a header click. */
module StatsTable {
  import opened Text
  import opened JsValues
  import opened Csv
  import Sorting
  import opened Heatmap

  /** A table column: its header, whether it holds numbers, and whether its
      cells may be edited. */
  datatype Column = Column(name: string, isNumber: bool, editable: bool)

  /** The stats whose sum is the base stat total, by their exact header. */
  const StatsToSum: seq<string> := ["HP", "Attack", "Defense", "SpecialAttack", "SpecialDefense", "Speed"]

  /** The lower-cased headers that make a number column. */
  const NumberHeaders: seq<string> := ["hp", "attack", "defense", "specialattack", "specialdefense", "speed", "bst"]

  // ---------------------------------------------------------------------
  // Base stat total

  /** The sum of `parseFloat(row[stat]) || 0` over the stats present. */
  function SumStats(row: Row, stats: seq<string>): real
  {
    if stats == [] then 0.0
    else SumStats(row, stats[..|stats| - 1]) + FieldNumber(row, stats[|stats| - 1])
  }

  /** The base stat total of a row. */
  function Bst(row: Row): real
  {
    SumStats(row, StatsToSum)
  }

  /** The total is the six stats added up, a missing or non-numeric stat
      counting 0. */
  lemma BstSixStats(row: Row)
    ensures Bst(row) == FieldNumber(row, "HP") + FieldNumber(row, "Attack") + FieldNumber(row, "Defense")
      + FieldNumber(row, "SpecialAttack") + FieldNumber(row, "SpecialDefense") + FieldNumber(row, "Speed")
  {
    var s := StatsToSum;
    assert SumStats(row, s[..1]) == FieldNumber(row, "HP") by {
      assert s[..1][..0] == [];
    }
    assert SumStats(row, s[..2]) == SumStats(row, s[..1]) + FieldNumber(row, "Attack") by {
      assert s[..2][..1] == s[..1];
    }
    assert SumStats(row, s[..3]) == SumStats(row, s[..2]) + FieldNumber(row, "Defense") by {
      assert s[..3][..2] == s[..2];
    }
    assert SumStats(row, s[..4]) == SumStats(row, s[..3]) + FieldNumber(row, "SpecialAttack") by {
      assert s[..4][..3] == s[..3];
    }
    assert SumStats(row, s[..5]) == SumStats(row, s[..4]) + FieldNumber(row, "SpecialDefense") by {
      assert s[..5][..4] == s[..4];
    }
    assert s[..6][..5] == s[..5] && s[..6] == s;
  }

  /** Setting a field that is not summed leaves the sum alone. */
  lemma {:induction false} SumStatsIgnores(row: Row, stats: seq<string>, key: string, v: Cell)
    requires key !in stats
    ensures SumStats(row[key := v], stats) == SumStats(row, stats)
    decreases |stats|
  {
    if stats != [] {
      assert stats == stats[..|stats| - 1] + [stats[|stats| - 1]];
      SumStatsIgnores(row, stats[..|stats| - 1], key, v);
    }
  }

  lemma BstIgnores(row: Row, key: string, v: Cell)
    requires key !in StatsToSum
    ensures Bst(row[key := v]) == Bst(row)
  {
    SumStatsIgnores(row, StatsToSum, key, v);
  }

  /** The row holds its own base stat total under "BST". */
  predicate BstOk(row: Row)
  {
    "BST" in row && row["BST"] == Num(Bst(row))
  }

  /** The row after updateBST: "BST" set to the total, nothing else changed;
      the total it stores is the one the new row has. */
  function WithBst(row: Row): (r: Row)
    ensures BstOk(r)
    ensures r.Keys == row.Keys + {"BST"}
    ensures forall k :: k in row && k != "BST" ==> r[k] == row[k]
  {
    BstIgnores(row, "BST", Num(Bst(row)));
    row["BST" := Num(Bst(row))]
  }

  /** Recomputing the total of a row whose total is up to date changes
      nothing. */
  lemma WithBstIdempotent(row: Row)
    requires BstOk(row)
    ensures WithBst(row) == row
  {
    assert WithBst(row).Keys == row.Keys;
  }

  /** Every row holds its own base stat total. */
  predicate Consistent(data: seq<Row>)
  {
    forall k :: 0 <= k < |data| ==> BstOk(data[k])
  }

  /** Replacing a row by a consistent one keeps the rows consistent. */
  lemma ConsistentUpdate(data: seq<Row>, i: nat, row: Row)
    requires Consistent(data) && i < |data| && BstOk(row)
    ensures Consistent(data[i := row])
  {
  }

  /** Reordering the rows keeps them consistent. */
  lemma ConsistentPermutation(a: seq<Row>, b: seq<Row>)
    requires Consistent(a) && multiset(a) == multiset(b)
    ensures Consistent(b)
  {
    forall k | 0 <= k < |b|
      ensures BstOk(b[k])
    {
      assert b[k] in multiset(b);
      assert b[k] in a;
      var j :| 0 <= j < |a| && a[j] == b[k];
    }
  }

  // ---------------------------------------------------------------------
  // Column typing

  /** A header names a number column when its lower-cased form is one of
      the six stats or "bst". */
  predicate IsNumberHeader(h: string)
  {
    ToLower(h) in NumberHeaders
  }

  /** The column parseCSV makes of a header: BST is the one column that is
      not editable. */
  function ColumnOf(h: string): (c: Column)
    ensures c.name == h
    ensures c.isNumber <==> IsNumberHeader(h)
    ensures c.editable <==> ToLower(h) != "bst"
  {
    Column(h, IsNumberHeader(h), ToLower(h) != "bst")
  }

  /** Every column is typed by its name. */
  predicate WellTyped(columns: seq<Column>)
  {
    forall k :: 0 <= k < |columns| ==> columns[k] == ColumnOf(columns[k].name)
  }

  /** The summed stats and "BST" name number columns, so a text column
      never holds a stat or the total. */
  lemma StatIsNumberHeader(s: string)
    requires s in StatsToSum || s == "BST"
    ensures IsNumberHeader(s)
  {
    if s == "HP" {
      assert ToLower("HP") == "hp";
    } else if s == "Attack" {
      AttackIsNumber();
    } else if s == "Defense" {
      DefenseIsNumber();
    } else if s == "SpecialAttack" {
      SpecialAttackIsNumber();
    } else if s == "SpecialDefense" {
      SpecialDefenseIsNumber();
    } else if s == "Speed" {
      assert ToLower("Speed") == "speed";
    } else {
      assert ToLower("BST") == "bst";
    }
  }

  lemma AttackIsNumber()
    ensures IsNumberHeader("Attack")
  {
    LowerAttack();
  }

  lemma DefenseIsNumber()
    ensures IsNumberHeader("Defense")
  {
    LowerDefense();
  }

  lemma SpecialAttackIsNumber()
    ensures IsNumberHeader("SpecialAttack")
  {
    LowerSpecialAttack();
  }

  lemma SpecialDefenseIsNumber()
    ensures IsNumberHeader("SpecialDefense")
  {
    LowerSpecialDefense();
  }

  // The lower-case forms of the longer stat names, a character at a time.

  lemma LowerEach(s: string, t: string)
    requires |s| == |t| && forall k :: 0 <= k < |s| ==> LowerChar(s[k]) == t[k]
    ensures ToLower(s) == t
  {
  }

  lemma LowerAttack()
    ensures ToLower("Attack") == "attack"
  {
    LowerEach("Attack", "attack");
  }

  lemma LowerDefense()
    ensures ToLower("Defense") == "defense"
  {
    LowerEach("Defense", "defense");
  }

  lemma LowerSpecialAttack()
    ensures ToLower("SpecialAttack") == "specialattack"
  {
    LowerEach("SpecialAttack", "specialattack");
  }

  lemma LowerSpecialDefense()
    ensures ToLower("SpecialDefense") == "specialdefense"
  {
    LowerEach("SpecialDefense", "specialdefense");
  }

  predicate HasBst(headers: seq<string>)
  {
    exists k :: 0 <= k < |headers| && ToLower(headers[k]) == "bst"
  }

  function ColumnsOf(headers: seq<string>): (r: seq<Column>)
    ensures |r| == |headers|
    ensures forall k :: 0 <= k < |r| ==> r[k] == ColumnOf(headers[k])
  {
    seq(|headers|, k requires 0 <= k < |headers| => ColumnOf(headers[k]))
  }

  /** The columns parseCSV builds: one per header in header order, then a
      non-editable BST number column when no header is "bst" in any case. */
  function HeaderColumns(headers: seq<string>): seq<Column>
  {
    ColumnsOf(headers) + (if HasBst(headers) then [] else [Column("BST", true, false)])
  }

  /** The imported columns are typed by their names, keep the headers in
      order, and always include a BST column. */
  lemma HeaderColumnsFacts(headers: seq<string>)
    ensures var r := HeaderColumns(headers);
      && WellTyped(r)
      && |r| == |headers| + (if HasBst(headers) then 0 else 1)
      && (forall k :: 0 <= k < |headers| ==> r[k].name == headers[k])
      && (!HasBst(headers) ==> r[|r| - 1] == Column("BST", true, false))
      && HasBst(seq(|r|, k requires 0 <= k < |r| => r[k].name))
  {
    var r := HeaderColumns(headers);
    StatIsNumberHeader("BST");
    var names := seq(|r|, k requires 0 <= k < |r| => r[k].name);
    if HasBst(headers) {
      var k :| 0 <= k < |headers| && ToLower(headers[k]) == "bst";
      assert ToLower(names[k]) == "bst";
    } else {
      assert ToLower(names[|r| - 1]) == "bst";
    }
  }

  // ---------------------------------------------------------------------
  // Number coercion

  /** `parseFloat("")` is NaN. */
  lemma ParseFloatEmpty()
    ensures ParseFloat("") == None
  {
    TrimStartNoSpace("", IsJsSpace);
  }

  /** The value parseFloat gives a number cell: NaN kept as such. */
  function ParseFloatCell(value: string): (c: Cell)
    ensures !c.Str?
    ensures c.Num? <==> ParseFloat(value).Some?
  {
    match ParseFloat(value) case Some(x) => Num(x) case None => NaN
  }

  /** A cell of an imported row: a number column holds 0 for an empty
      field and parseFloat of the field otherwise, which may be NaN; a text
      column holds the field. Either way the cell reads as
      `parseFloat(field) || 0`. */
  function ImportCell(isNumber: bool, value: string): Cell
  {
    if isNumber then (if value != "" then ParseFloatCell(value) else Num(0.0)) else Str(value)
  }

  /** A number field becomes a number or NaN: 0 when empty, NaN exactly
      when non-empty and not parseable; a text field is kept as text. */
  lemma ImportCellCases(isNumber: bool, value: string)
    ensures isNumber ==> !ImportCell(isNumber, value).Str?
    ensures isNumber && value == "" ==> ImportCell(isNumber, value) == Num(0.0)
    ensures isNumber && value != "" ==> (ImportCell(isNumber, value) == NaN <==> ParseFloat(value).None?)
    ensures !isNumber ==> ImportCell(isNumber, value) == Str(value)
  {
  }

  /** The number updateData stores for an edited number cell: 0 for empty
      or non-numeric text. */
  function NumberInput(value: string): real
  {
    if value == "" then 0.0
    else match ParseFloat(value) case Some(x) => x case None => 0.0
  }

  /** An edited number is what `parseFloat(text) || 0` reads from the text,
      and what the imported cell of the same text reads as; unlike import,
      an edit never stores NaN. */
  lemma NumberInputReadsAsText(value: string)
    ensures NumberInput(value) == CellNumber(Str(value))
    ensures NumberInput(value) == CellNumber(ImportCell(true, value))
    ensures CellNumber(ImportCell(true, value)) == CellNumber(Str(value))
    ensures value == "" || ParseFloat(value).None? ==> NumberInput(value) == 0.0
  {
    ParseFloatEmpty();
  }

  // ---------------------------------------------------------------------
  // Imported and new rows

  /** The row object after the first `n` headers have been assigned. */
  function RowFor(headers: seq<string>, values: seq<string>, n: nat): Row
    requires n <= |headers|
  {
    if n == 0 then map[]
    else RowFor(headers, values, n - 1)[headers[n - 1] :=
      ImportCell(IsNumberHeader(headers[n - 1]), OrEmpty(FieldAt(values, n - 1)))]
  }

  /** An imported row holds exactly the headers; a header takes the field
      at its last position, typed by the header. */
  lemma {:induction false} RowForLastWins(headers: seq<string>, values: seq<string>, n: nat, k: nat)
    requires k < n <= |headers|
    requires forall j :: k < j < n ==> headers[j] != headers[k]
    ensures headers[k] in RowFor(headers, values, n)
    ensures RowFor(headers, values, n)[headers[k]] ==
      ImportCell(IsNumberHeader(headers[k]), OrEmpty(FieldAt(values, k)))
  {
    if k < n - 1 {
      RowForLastWins(headers, values, n - 1, k);
    }
  }

  lemma {:induction false} RowForKeys(headers: seq<string>, values: seq<string>, n: nat)
    requires n <= |headers|
    ensures RowFor(headers, values, n).Keys == set k | 0 <= k < n :: headers[k]
  {
    if n > 0 {
      RowForKeys(headers, values, n - 1);
      assert (set k | 0 <= k < n :: headers[k]) ==
        (set k | 0 <= k < n - 1 :: headers[k]) + {headers[n - 1]};
    }
  }

  /** The row a data line contributes: none for a blank line. The fields
      are split at commas and trimmed like the header line. */
  function ImportedLine(headers: seq<string>, line: string): seq<Row>
  {
    if Trim(line) == "" then [] else [RowFor(headers, Headers(line), |headers|)]
  }

  function ImportedRows(headers: seq<string>, lines: seq<string>): seq<Row>
  {
    if lines == [] then []
    else ImportedRows(headers, lines[..|lines| - 1]) + ImportedLine(headers, lines[|lines| - 1])
  }

  /** The rows parseCSV stores: the imported rows with their totals. */
  function Imported(headers: seq<string>, lines: seq<string>): (r: seq<Row>)
    ensures Consistent(r)
    ensures |r| == |ImportedRows(headers, lines)|
  {
    var rows := ImportedRows(headers, lines);
    seq(|rows|, k requires 0 <= k < |rows| => WithBst(rows[k]))
  }

  /** The number of lines that are not blank. */
  function NonBlank(lines: seq<string>): nat
  {
    if lines == [] then 0
    else NonBlank(lines[..|lines| - 1]) + (if Trim(lines[|lines| - 1]) == "" then 0 else 1)
  }

  /** Every non-blank data line gives one row, blank lines none; the k-th
      row of a line holds exactly the headers. */
  lemma {:induction false} ImportedRowsCount(headers: seq<string>, lines: seq<string>)
    ensures |ImportedRows(headers, lines)| == NonBlank(lines)
    ensures forall k :: 0 <= k < |ImportedRows(headers, lines)| ==>
      ImportedRows(headers, lines)[k].Keys == set j | 0 <= j < |headers| :: headers[j]
  {
    if lines != [] {
      ImportedRowsCount(headers, lines[..|lines| - 1]);
      RowForKeys(headers, Headers(lines[|lines| - 1]), |headers|);
    }
  }

  /** The blank cell addRow gives a column. */
  function BlankCell(c: Column): (r: Cell)
    ensures CellNumber(r) == 0.0
  {
    ParseFloatEmpty();
    if c.isNumber then Num(0.0) else Str("")
  }

  /** The row addRow builds: each column in turn set to its blank cell. */
  function NewRow(columns: seq<Column>): Row
  {
    if columns == [] then map[]
    else NewRow(columns[..|columns| - 1])[columns[|columns| - 1].name := BlankCell(columns[|columns| - 1])]
  }

  /** Columns that share a name share a type. */
  predicate NamesTyped(columns: seq<Column>)
  {
    forall i, j :: 0 <= i < |columns| && 0 <= j < |columns| && columns[i].name == columns[j].name ==>
      columns[i].isNumber == columns[j].isNumber
  }

  lemma WellTypedNamesTyped(columns: seq<Column>)
    requires WellTyped(columns)
    ensures NamesTyped(columns)
  {
  }

  /** When columns of one name share a type, a new row holds every column
      name, 0 under a number column and "" under a text column. */
  lemma {:induction false} NewRowCells(columns: seq<Column>)
    requires NamesTyped(columns)
    ensures forall k :: 0 <= k < |columns| ==>
      (columns[k].name in NewRow(columns) &&
       NewRow(columns)[columns[k].name] == (if columns[k].isNumber then Num(0.0) else Str("")))
  {
    if columns != [] {
      var n := |columns| - 1;
      var init := columns[..n];
      NewRowCells(init);
      forall k | 0 <= k < |columns|
        ensures columns[k].name in NewRow(columns) &&
          NewRow(columns)[columns[k].name] == (if columns[k].isNumber then Num(0.0) else Str(""))
      {
        if k < n && columns[k].name != columns[n].name {
          assert init[k] == columns[k];
        }
      }
    }
  }

  /** The names of the columns. */
  function ColumnNames(columns: seq<Column>): (r: set<string>)
    ensures forall k :: 0 <= k < |columns| ==> columns[k].name in r
  {
    if columns == [] then {}
    else ColumnNames(columns[..|columns| - 1]) + {columns[|columns| - 1].name}
  }

  /** A new row holds exactly the column names. */
  lemma {:induction false} NewRowKeys(columns: seq<Column>)
    ensures NewRow(columns).Keys == ColumnNames(columns)
  {
    if columns != [] {
      NewRowKeys(columns[..|columns| - 1]);
    }
  }

  /** Every field of a new row reads as 0, so its total is 0. */
  lemma {:induction false} NewRowReadsZero(columns: seq<Column>, key: string)
    ensures FieldNumber(NewRow(columns), key) == 0.0
  {
    if columns != [] {
      NewRowReadsZero(columns[..|columns| - 1], key);
    }
  }

  lemma {:induction false} SumOfZeros(row: Row, stats: seq<string>)
    requires forall s :: FieldNumber(row, s) == 0.0
    ensures SumStats(row, stats) == 0.0
    decreases |stats|
  {
    if stats != [] {
      SumOfZeros(row, stats[..|stats| - 1]);
    }
  }

  lemma NewRowBstZero(columns: seq<Column>)
    ensures Bst(NewRow(columns)) == 0.0
  {
    forall s {
      NewRowReadsZero(columns, s);
    }
    SumOfZeros(NewRow(columns), StatsToSum);
  }

  // ---------------------------------------------------------------------
  // Deleting, sorting and editing

  /** `splice(i, 1)`: the element at `i` removed, the others in order. */
  function RemoveAt<T>(s: seq<T>, i: nat): (r: seq<T>)
    requires i < |s|
    ensures |r| == |s| - 1
    ensures forall k :: 0 <= k < i ==> r[k] == s[k]
    ensures forall k :: i <= k < |r| ==> r[k] == s[k + 1]
    ensures multiset(r) + multiset{s[i]} == multiset(s)
  {
    assert s == s[..i] + [s[i]] + s[i + 1..];
    s[..i] + s[i + 1..]
  }

  /** The first column of that name (`columns.find`). */
  function FindColumn(columns: seq<Column>, name: string): (r: Option<Column>)
    ensures r.Some? ==> r.value in columns && r.value.name == name
    ensures r.None? <==> forall k :: 0 <= k < |columns| ==> columns[k].name != name
  {
    if columns == [] then None
    else if columns[0].name == name then Some(columns[0])
    else
      var r := FindColumn(columns[1..], name);
      assert forall k :: 1 <= k < |columns| ==> columns[k] == columns[1..][k - 1];
      r
  }

  /** A number column sorts by `parseFloat(value) || 0`. */
  function NumberKey(name: string): Row -> Sorting.Key
  {
    (row: Row) => Sorting.Num(FieldNumber(row, name))
  }

  /** `String(value)` of a text cell: "undefined" when the field is
      missing. */
  function TextOf(row: Row, name: string): string
  {
    if name !in row then "undefined"
    else match row[name] case Str(s) => s case NaN => "NaN" case Num(_) => ""
  }

  /** A text column sorts by the code points of `String(value)`. */
  function TextKey(name: string): Row -> Sorting.Key
  {
    (row: Row) => Sorting.Word(Sorting.Codes(TextOf(row, name)))
  }

  function SortKey(c: Column): Row -> Sorting.Key
  {
    if c.isNumber then NumberKey(c.name) else TextKey(c.name)
  }

  /** A number column sorts rows by the number each holds, in the
      direction asked, keeping rows of equal value in their order. */
  lemma NumberSort(data: seq<Row>, name: string, ascending: bool)
    ensures var r := Sorting.SortByKey(data, NumberKey(name), ascending);
      && multiset(r) == multiset(data)
      && (forall i, j :: 0 <= i < j < |r| ==>
            (if ascending then FieldNumber(r[i], name) <= FieldNumber(r[j], name)
             else FieldNumber(r[i], name) >= FieldNumber(r[j], name)))
      && (forall k :: Sorting.WithKey(r, NumberKey(name), k) == Sorting.WithKey(data, NumberKey(name), k))
  {
    var r := Sorting.SortByKey(data, NumberKey(name), ascending);
    Sorting.SortByKeyCorrect(data, NumberKey(name), ascending);
    forall i, j | 0 <= i < j < |r|
      ensures if ascending then FieldNumber(r[i], name) <= FieldNumber(r[j], name)
              else FieldNumber(r[i], name) >= FieldNumber(r[j], name)
    {
      assert !Sorting.Precedes(NumberKey(name)(r[j]), NumberKey(name)(r[i]), ascending);
    }
  }

  /** The row updateData leaves: a number column gets the coerced number
      and the total is recomputed; a text column gets the trimmed text. */
  function Edited(row: Row, c: Column, value: string): Row
  {
    if c.isNumber then WithBst(row[c.name := Num(NumberInput(value))])
    else row[c.name := Str(value)]
  }

  /** Editing a cell of a well-typed column keeps the row's total up to
      date, and changes no field but the edited one and the total. */
  lemma EditedConsistent(row: Row, c: Column, value: string)
    requires BstOk(row) && c == ColumnOf(c.name)
    ensures BstOk(Edited(row, c, value))
    ensures forall k :: k in row && k != c.name && k != "BST" ==> Edited(row, c, value)[k] == row[k]
    ensures c.name in Edited(row, c, value)
  {
    if !c.isNumber {
      if c.name in StatsToSum || c.name == "BST" {
        StatIsNumberHeader(c.name);
      }
      BstIgnores(row, c.name, Str(value));
    }
  }

  // ---------------------------------------------------------------------
  // Heat map

  /** The columns the heat map shades: number columns other than BST. */
  function HeatmapColumns(columns: seq<Column>): (r: seq<Column>)
    ensures forall c :: c in r <==> c in columns && c.isNumber && c.name != "BST"
  {
    if columns == [] then []
    else
      var c := columns[0];
      (if c.isNumber && c.name != "BST" then [c] else []) + HeatmapColumns(columns[1..])
  }

  function ColumnValues(data: seq<Row>, name: string): (r: seq<real>)
    ensures |r| == |data|
  {
    seq(|data|, k requires 0 <= k < |data| => FieldNumber(data[k], name))
  }

  /** updateStatsHeatmap on one column: each row's intensity from 0 to 40
      between the column's smallest and largest value, 40 exactly for the
      largest and 0 for the smallest; no row is tinted when the smallest and
      the largest value are the same. */
  function ColumnShades(data: seq<Row>, name: string): (r: seq<Option<int>>)
    ensures |r| == |data|
    ensures forall k :: 0 <= k < |r| ==>
      (r[k].None? <==> MinOf(ColumnValues(data, name)) == MaxOf(ColumnValues(data, name)))
    ensures forall k :: 0 <= k < |r| && r[k].Some? ==> 0 <= r[k].value <= 40
    ensures forall k :: 0 <= k < |r| && r[k].Some? ==>
      (r[k].value == 40 <==> FieldNumber(data[k], name) == MaxOf(ColumnValues(data, name)))
    ensures forall k :: 0 <= k < |r| && r[k].Some? ==>
      (FieldNumber(data[k], name) == MinOf(ColumnValues(data, name)) ==> r[k].value == 0)
  {
    if data == [] then []
    else
      var values := ColumnValues(data, name);
      var lo, hi := MinOf(values), MaxOf(values);
      seq(|data|, k requires 0 <= k < |data| => ColorIntensity(values[k], lo, hi))
  }

  /** A column whose rows all hold the same number, a table of one row
      included, gets no tint in any row. */
  lemma EqualColumnNoTint(data: seq<Row>, name: string)
    requires forall k :: 0 <= k < |data| ==> FieldNumber(data[k], name) == FieldNumber(data[0], name)
    ensures forall k :: 0 <= k < |data| ==> ColumnShades(data, name)[k] == None
  {
    if data != [] {
      var values := ColumnValues(data, name);
      assert MinOf(values) in values && MaxOf(values) in values;
      assert MinOf(values) == MaxOf(values);
    }
  }

  // ---------------------------------------------------------------------
  // The editor

  /** Builds the row of one data line (the inner forEach of parseCSV). */
  method ReadRow(columns: seq<Column>, headers: seq<string>, values: seq<string>) returns (rowData: Row)
    requires |columns| >= |headers|
    requires forall k :: 0 <= k < |headers| ==> columns[k] == ColumnOf(headers[k])
    ensures rowData == RowFor(headers, values, |headers|)
  {
    rowData := map[];
    for index := 0 to |headers|
      invariant rowData == RowFor(headers, values, index)
    {
      var value := OrEmpty(FieldAt(values, index));
      var cell := ImportCell(columns[index].isNumber, value);
      RowForStep(columns, headers, values, index);
      rowData := rowData[headers[index] := cell];
    }
  }

  lemma RowForStep(columns: seq<Column>, headers: seq<string>, values: seq<string>, index: nat)
    requires index < |headers| <= |columns| && columns[index] == ColumnOf(headers[index])
    ensures RowFor(headers, values, index + 1) ==
      RowFor(headers, values, index)[headers[index] := ImportCell(columns[index].isNumber, OrEmpty(FieldAt(values, index)))]
  {
  }

  lemma ImportedStep(headers: seq<string>, lines: seq<string>, i: nat)
    requires 1 <= i < |lines|
    ensures ImportedRows(headers, lines[1..i + 1]) ==
      ImportedRows(headers, lines[1..i]) + ImportedLine(headers, lines[i])
  {
    assert lines[1..i + 1][..i - 1] == lines[1..i];
  }

  /** The columns parseCSV builds from the header fields. */
  method BuildColumns(headers: seq<string>) returns (columns: seq<Column>)
    ensures columns == HeaderColumns(headers)
  {
    columns := [];
    for k := 0 to |headers|
      invariant columns == ColumnsOf(headers[..k])
    {
      assert ColumnsOf(headers[..k + 1]) == ColumnsOf(headers[..k]) + [ColumnOf(headers[k])];
      columns := columns + [ColumnOf(headers[k])];
    }
    assert headers[..|headers|] == headers;
    if !HasBst(headers) {
      columns := columns + [Column("BST", true, false)];
    }
  }

  /** The rows parseCSV reads from the data lines, before their totals. */
  method ReadRows(headers: seq<string>, columns: seq<Column>, lines: seq<string>) returns (rows: seq<Row>)
    requires |lines| >= 1 && columns == HeaderColumns(headers)
    ensures rows == ImportedRows(headers, lines[1..])
  {
    rows := [];
    for i := 1 to |lines|
      invariant rows == ImportedRows(headers, lines[1..i])
    {
      ImportedStep(headers, lines, i);
      if Trim(lines[i]) == "" {
        continue;
      }
      var rowData := ReadRow(columns, headers, Headers(lines[i]));
      rows := rows + [rowData];
    }
    assert lines[1..|lines|] == lines[1..];
  }

  class StatsEditor {
    var columns: seq<Column>
    var data: seq<Row>
    /** The sorted column, none before the first header click. */
    var columnToSort: Option<string>
    /** Whether the last header click sorted ascending. */
    var columnDirection: bool

    /** Columns typed by their names, and every row's BST up to date. */
    predicate Valid()
      reads this
    {
      WellTyped(columns) && Consistent(data)
    }

    /** The editor before any file is loaded. */
    constructor ()
      ensures Valid()
      ensures columns == [] && data == [] && columnToSort == None && !columnDirection
    {
      columns := [];
      data := [];
      columnToSort := None;
      columnDirection := false;
    }

    /** updateBST: the row's "BST" field set to its total. */
    method UpdateBst(rowIndex: nat)
      requires rowIndex < |data|
      modifies this
      ensures data == old(data)[rowIndex := WithBst(old(data)[rowIndex])]
      ensures columns == old(columns) && columnToSort == old(columnToSort)
      ensures columnDirection == old(columnDirection)
    {
      var row := data[rowIndex];
      var bst := 0.0;
      for i := 0 to |StatsToSum|
        invariant bst == SumStats(row, StatsToSum[..i])
      {
        var stat := StatsToSum[i];
        assert StatsToSum[..i + 1][..i] == StatsToSum[..i];
        if stat in row {
          bst := bst + CellNumber(row[stat]);
        }
      }
      assert StatsToSum[..|StatsToSum|] == StatsToSum;
      data := data[rowIndex := row["BST" := Num(bst)]];
    }

    /** addRow: one blank row appended with its total (0); the other rows
        are untouched. */
    method AddRow()
      requires Valid()
      modifies this
      ensures Valid()
      ensures data == old(data) + [WithBst(NewRow(columns))]
      ensures Bst(data[|data| - 1]) == 0.0
      ensures columns == old(columns) && columnToSort == old(columnToSort)
      ensures columnDirection == old(columnDirection)
    {
      var newRow: Row := map[];
      for i := 0 to |columns|
        invariant newRow == NewRow(columns[..i])
      {
        assert columns[..i + 1][..i] == columns[..i];
        newRow := newRow[columns[i].name := BlankCell(columns[i])];
      }
      assert columns[..|columns|] == columns;
      data := data + [newRow];
      UpdateBst(|data| - 1);
      NewRowBstZero(columns);
      WithBstIdempotent(data[|data| - 1]);
    }

    /** deleteRow: `splice(rowIndex, 1)`, which changes nothing when the
        index is past the end. */
    method DeleteRow(rowIndex: nat)
      requires Valid()
      modifies this
      ensures Valid()
      ensures rowIndex < |old(data)| ==> data == RemoveAt(old(data), rowIndex)
      ensures rowIndex >= |old(data)| ==> data == old(data)
      ensures columns == old(columns) && columnToSort == old(columnToSort)
      ensures columnDirection == old(columnDirection)
    {
      if rowIndex < |data| {
        data := RemoveAt(data, rowIndex);
      }
    }

    /** sortData: the stable sort by the column's key, ascending or
        descending. */
    method SortData(columnName: string, ascending: bool)
      requires Valid() && FindColumn(columns, columnName).Some?
      modifies this
      ensures columns == old(columns) && columnToSort == old(columnToSort)
      ensures columnDirection == old(columnDirection)
      ensures Valid()
      ensures data == Sorting.SortByKey(old(data), SortKey(FindColumn(columns, columnName).value), ascending)
    {
      var key := SortKey(FindColumn(columns, columnName).value);
      Sorting.SortByKeyCorrect(data, key, ascending);
      ConsistentPermutation(data, Sorting.SortByKey(data, key, ascending));
      data := Sorting.SortByKey(data, key, ascending);
    }

    /** A click on the header of a number column: the column sorted
        ascending is sorted descending, any other click sorts ascending. */
    method HeaderClick(index: nat)
      requires Valid() && index < |columns| && columns[index].isNumber
      modifies this
      ensures columns == old(columns)
      ensures Valid()
      ensures (columnToSort, columnDirection) ==
        Sorting.Toggle(old(columnToSort), old(columnDirection), columns[index].name)
      ensures data == Sorting.SortByKey(old(data), NumberKey(columns[index].name), columnDirection)
    {
      var name := columns[index].name;
      if columnToSort == Some(name) && columnDirection {
        columnToSort := Some(name);
        columnDirection := false;
      } else {
        columnToSort := Some(name);
        columnDirection := true;
      }
      var found := FindColumn(columns, name);
      assert found.Some?;
      assert found.value.isNumber by {
        var j :| 0 <= j < |columns| && columns[j] == found.value;
      }
      SortData(name, columnDirection);
    }

    /** updateData: the edited text is trimmed; a number cell gets the
        coerced number and the row's total is recomputed, a text cell gets
        the text. An edit without a column name changes nothing. */
    method UpdateData(rowIndex: nat, columnName: string, text: string)
      requires Valid() && rowIndex < |data|
      requires columnName != "" ==> FindColumn(columns, columnName).Some?
      modifies this
      ensures columns == old(columns) && columnToSort == old(columnToSort)
      ensures columnDirection == old(columnDirection)
      ensures Valid()
      ensures columnName == "" ==> data == old(data)
      ensures columnName != "" ==>
        data == old(data)[rowIndex := Edited(old(data)[rowIndex], FindColumn(columns, columnName).value, Trim(text))]
    {
      var value := Trim(text);
      if columnName != "" {
        var column := FindColumn(columns, columnName).value;
        assert column == ColumnOf(column.name) by {
          var j :| 0 <= j < |columns| && columns[j] == column;
        }
        if column.isNumber {
          SetNumber(rowIndex, column, value);
        } else {
          SetText(rowIndex, column, value);
        }
      }
    }

    /** The number branch of updateData: `parseFloat(value) || 0` stored,
        then the total recomputed. */
    method SetNumber(rowIndex: nat, column: Column, value: string)
      requires Valid() && rowIndex < |data| && column.isNumber && column == ColumnOf(column.name)
      modifies this
      ensures columns == old(columns) && columnToSort == old(columnToSort)
      ensures columnDirection == old(columnDirection)
      ensures Valid()
      ensures data == old(data)[rowIndex := Edited(old(data)[rowIndex], column, value)]
    {
      EditedConsistent(data[rowIndex], column, value);
      ConsistentUpdate(data, rowIndex, Edited(data[rowIndex], column, value));
      var number := 0.0;
      if value != "" {
        match ParseFloat(value)
        case Some(x) => number := x;
        case None =>
      }
      data := data[rowIndex := data[rowIndex][column.name := Num(number)]];
      UpdateBst(rowIndex);
    }

    /** The text branch of updateData: the trimmed text stored. */
    method SetText(rowIndex: nat, column: Column, value: string)
      requires Valid() && rowIndex < |data| && !column.isNumber && column == ColumnOf(column.name)
      modifies this
      ensures columns == old(columns) && columnToSort == old(columnToSort)
      ensures columnDirection == old(columnDirection)
      ensures Valid()
      ensures data == old(data)[rowIndex := Edited(old(data)[rowIndex], column, value)]
    {
      EditedConsistent(data[rowIndex], column, value);
      ConsistentUpdate(data, rowIndex, Edited(data[rowIndex], column, value));
      data := data[rowIndex := data[rowIndex][column.name := Str(value)]];
    }

    /** parseCSV: with fewer than two lines nothing changes; otherwise the
        columns are rebuilt from the header line and the rows from the
        non-blank data lines, each with its total. */
    method ParseCsv(csvContent: string)
      requires Valid()
      modifies this
      ensures Valid()
      ensures var lines := SplitLines(csvContent);
        if |lines| < 2 then columns == old(columns) && data == old(data)
        else columns == HeaderColumns(Headers(lines[0])) && data == Imported(Headers(lines[0]), lines[1..])
      ensures columnToSort == old(columnToSort) && columnDirection == old(columnDirection)
    {
      var lines := SplitLines(csvContent);
      if |lines| < 2 {
        return;
      }
      var headers := Headers(lines[0]);
      columns := BuildColumns(headers);
      data := ReadRows(headers, columns, lines);
      UpdateAllBst();
      HeaderColumnsFacts(headers);
    }

    /** `data.forEach((_, index) => updateBST(index))`. */
    method UpdateAllBst()
      modifies this
      ensures columns == old(columns) && columnToSort == old(columnToSort)
      ensures columnDirection == old(columnDirection)
      ensures |data| == |old(data)|
      ensures forall k :: 0 <= k < |data| ==> data[k] == WithBst(old(data)[k])
    {
      var n := |data|;
      for i := 0 to n
        invariant columns == old(columns) && columnToSort == old(columnToSort)
        invariant columnDirection == old(columnDirection)
        invariant |data| == n
        invariant forall k :: 0 <= k < i ==> data[k] == WithBst(old(data)[k])
        invariant forall k :: i <= k < n ==> data[k] == old(data)[k]
      {
        UpdateBst(i);
      }
    }
  }
}
