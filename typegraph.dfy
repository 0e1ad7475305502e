/** The type-effectiveness chart as it is drawn (src/types/chart.py, and
    its copy read_csv_for_graph / create_chart in python/generate.py): the
    chart is read into a nested map of real multipliers, the types are
    listed in sorted order, and an n x n matrix is filled from the map with
    the raw 5 shown as x0.5 and an absent pair as x1. Rows are the CSV
    records after the header line. */
module TypeGraph {
  import opened Text
  import opened PyNumbers
  import opened Sorting
  import TypePacking

  /** data[attacker][defender] = multiplier */
  type Chart = map<string, map<string, real>>

  /** What read_csv does with one record. */
  datatype Record = Blank | Bad | Cell(attacker: string, defender: string, value: real)

  /** Blank records are skipped; a record that is not three fields, or
      whose multiplier `float()` rejects, raises ValueError. */
  function ToRecord(row: seq<string>): (e: Record)
    ensures e.Blank? <==> TypePacking.BlankRow(row)
    ensures e.Bad? <==> !TypePacking.BlankRow(row) && (|row| != 3 || PyFloat(row[2]).None?)
    ensures e.Cell? ==>
      |row| == 3 && e.attacker == Strip(row[0]) && e.defender == Strip(row[1]) && PyFloat(row[2]) == Some(e.value)
  {
    if TypePacking.BlankRow(row) then Blank
    else if |row| != 3 then Bad
    else match PyFloat(row[2])
      case None => Bad
      case Some(v) => Cell(Strip(row[0]), Strip(row[1]), v)
  }

  /** `data.setdefault(attacker, {})[defender] = value` */
  function Put(data: Chart, attacker: string, defender: string, value: real): Chart
  {
    data[attacker := (if attacker in data then data[attacker] else map[])[defender := value]]
  }

  /** The source's two steps (create the inner map if absent, then store)
      amount to Put. */
  lemma PutInTwoSteps(data: Chart, attacker: string, defender: string, value: real)
    ensures var d1 := if attacker !in data then data[attacker := map[]] else data;
      d1[attacker := d1[attacker][defender := value]] == Put(data, attacker, defender, value)
  {
  }

  /** Put stores the value at the pair and keeps every other pair. */
  lemma PutEffect(data: Chart, attacker: string, defender: string, value: real)
    ensures var after := Put(data, attacker, defender, value);
      attacker in after && defender in after[attacker] && after[attacker][defender] == value
      && (forall a, d :: a in data && d in data[a] && (a != attacker || d != defender) ==>
            a in after && d in after[a] && after[a][d] == data[a][d])
  {
  }

  lemma AddTwo(types: set<string>, a: string, d: string)
    ensures types + {a} + {d} == types + {a, d}
  {
  }

  type State = Option<(Chart, set<string>)>

  /** One record applied to the map and the type set. */
  function Apply(st: State, e: Record): State
  {
    match st
    case None => None
    case Some((data, types)) =>
      match e
      case Blank => st
      case Bad => None
      case Cell(a, d, v) => Some((Put(data, a, d, v), types + {a, d}))
  }

  /** The map and the type set after the records, or None on ValueError. */
  function ReadSpec(rows: seq<seq<string>>): State
  {
    if rows == [] then Some((map[], {}))
    else Apply(ReadSpec(rows[..|rows| - 1]), ToRecord(rows[|rows| - 1]))
  }

  lemma ReadStep(rows: seq<seq<string>>, i: nat)
    requires i < |rows|
    ensures ReadSpec(rows[..i + 1]) == Apply(ReadSpec(rows[..i]), ToRecord(rows[i]))
  {
    assert rows[..i + 1][..i] == rows[..i];
  }

  lemma {:induction false} ReadFailPersists(rows: seq<seq<string>>, i: nat)
    requires i <= |rows| && ReadSpec(rows[..i]) == None
    ensures ReadSpec(rows) == None
    decreases |rows| - i
  {
    if i < |rows| {
      ReadStep(rows, i);
      ReadFailPersists(rows, i + 1);
    } else {
      assert rows[..i] == rows;
    }
  }

  /** Strings compare by code points, as Python's `<` on str does. */
  function StringKey(s: string): Key
  {
    Key.Word(Codes(s))
  }

  predicate StrictlyAscending(s: seq<string>)
  {
    forall i, j :: 0 <= i < j < |s| ==> LexLess(Codes(s[i]), Codes(s[j]))
  }

  /** s lists the elements of t in strictly ascending order. */
  ghost predicate SortedListOf(s: seq<string>, t: set<string>)
  {
    (forall x :: x in s <==> x in t) && StrictlyAscending(s)
  }

  /** `sorted(list(types))`. */
  method SortedTypes(types: set<string>) returns (r: seq<string>)
    ensures |r| == |types|
    ensures SortedListOf(r, types)
  {
    forall x, y | x in types && y in types && StringKey(x) == StringKey(y)
      ensures x == y
    {
      CodesInjective(x, y);
    }
    r := SortedSet(types, StringKey);
  }

  /** The body of read_csv / read_csv_for_graph for a record of three
      fields: both names go into the type set, the attacker's inner map is
      created if absent, and the multiplier is stored, unless `float()`
      rejects it. */
  method ReadCell(data: Chart, types: set<string>, row: seq<string>) returns (st: State)
    requires !TypePacking.BlankRow(row) && |row| == 3
    ensures st == Apply(Some((data, types)), ToRecord(row))
  {
    var attacker := Strip(row[0]);
    var defender := Strip(row[1]);
    var types' := types + {attacker};
    types' := types' + {defender};
    var data' := data;
    if attacker !in data' {
      data' := data'[attacker := map[]];
    }
    var multiplier := PyFloat(row[2]);
    if multiplier.None? {
      return None;
    }
    PutInTwoSteps(data, attacker, defender, multiplier.value);
    AddTwo(types, attacker, defender);
    data' := data'[attacker := data'[attacker][defender := multiplier.value]];
    return Some((data', types'));
  }

  /** The loop of read_csv / read_csv_for_graph: the map and the type set
      it fills, or None where it raises ValueError. */
  method ReadRecords(rows: seq<seq<string>>) returns (st: State)
    ensures st == ReadSpec(rows)
  {
    var data: Chart := map[];
    var types: set<string> := {};
    for i := 0 to |rows|
      invariant ReadSpec(rows[..i]) == Some((data, types))
    {
      var row := rows[i];
      ReadStep(rows, i);
      if TypePacking.BlankRow(row) {
        continue;
      }
      if |row| != 3 {
        ReadFailPersists(rows, i + 1);
        return None;
      }
      var next := ReadCell(data, types, row);
      if next.None? {
        ReadFailPersists(rows, i + 1);
        return None;
      }
      data, types := next.value.0, next.value.1;
    }
    assert rows[..|rows|] == rows;
    return Some((data, types));
  }

  /** read_csv / read_csv_for_graph on the records after the header: the
      map, and the types in sorted order. */
  method ReadCsv(rows: seq<seq<string>>) returns (r: Option<(Chart, seq<string>)>)
    ensures r.None? <==> ReadSpec(rows).None?
    ensures r.Some? ==> r.value.0 == ReadSpec(rows).value.0
    ensures r.Some? ==> SortedListOf(r.value.1, ReadSpec(rows).value.1)
  {
    var st := ReadRecords(rows);
    if st.None? {
      return None;
    }
    var (data, types) := st.value;
    var sorted := SortedTypes(types);
    r := Some((data, sorted));
  }

  /** The chart's value for a raw multiplier: 5 stands for x0.5. */
  function Shown(value: real): (v: real)
    ensures value == 5.0 ==> v == 0.5
    ensures value != 5.0 ==> v == value
  {
    if value == 5.0 then 0.5 else if value == 0.0 then 0.0 else value
  }

  /** The matrix entry for an attacker and a defender: x1 when the chart
      has no entry for the pair. */
  function Entry(data: Chart, attacker: string, defender: string): (v: real)
    ensures (attacker !in data || defender !in data[attacker]) ==> v == 1.0
    ensures attacker in data && defender in data[attacker] ==> v == Shown(data[attacker][defender])
  {
    if attacker in data && defender in data[attacker] then Shown(data[attacker][defender]) else 1.0
  }

  /** The matrix-filling part of create_chart: `np.ones((n, n))`, then
      every present pair written at [attacker index, defender index]. */
  method CreateChart(data: Chart, types: seq<string>) returns (matrix: array2<real>)
    ensures fresh(matrix)
    ensures matrix.Length0 == |types| && matrix.Length1 == |types|
    ensures forall i, j :: 0 <= i < |types| && 0 <= j < |types| ==>
      matrix[i, j] == Entry(data, types[i], types[j])
  {
    var n := |types|;
    matrix := new real[n, n]((i, j) => 1.0);
    for i := 0 to n
      invariant forall i', j :: 0 <= i' < i && 0 <= j < n ==> matrix[i', j] == Entry(data, types[i'], types[j])
      invariant forall i', j :: i <= i' < n && 0 <= j < n ==> matrix[i', j] == 1.0
    {
      var attacker := types[i];
      for j := 0 to n
        invariant forall i', j' :: 0 <= i' < i && 0 <= j' < n ==> matrix[i', j'] == Entry(data, types[i'], types[j'])
        invariant forall j' :: 0 <= j' < j ==> matrix[i, j'] == Entry(data, types[i], types[j'])
        invariant forall i', j' :: (i < i' < n && 0 <= j' < n) || (i' == i && j <= j' < n) ==> matrix[i', j'] == 1.0
      {
        var defender := types[j];
        if attacker in data && defender in data[attacker] {
          var value := data[attacker][defender];
          if value == 5.0 {
            matrix[i, j] := 0.5;
          } else if value == 0.0 {
            matrix[i, j] := 0.0;
          } else {
            matrix[i, j] := value;
          }
        }
      }
    }
  }

  /** The text drawn in a cell. */
  function Label(value: real): (t: string)
    ensures t == "\U{BD}" <==> value == 0.5
    ensures t == "0" <==> value == 0.0
    ensures t == "2" <==> value == 2.0
    ensures t == "" <==> value != 0.5 && value != 0.0 && value != 2.0
  {
    if value == 0.5 then "\U{BD}" else if value == 0.0 then "0" else if value == 2.0 then "2" else ""
  }

  /** The multiplier a 2-bit code of the packed chart stands for. */
  function CodeMultiplier(code: nat): real
  {
    if code == 0 then 0.0 else if code == 1 then 1.0 else if code == 2 then 2.0 else 0.5
  }

  /** The drawn chart and the packed chart agree: for every multiplier the
      packing accepts, the matrix shows the multiplier its 2-bit code
      stands for. */
  lemma ShownAgreesWithCode(m: int)
    requires TypePacking.Known(m)
    ensures Shown(m as real) == CodeMultiplier(TypePacking.Code(m))
  {
  }

  /** The read entries of a chart with multipliers in {0, 1, 2, 5} are
      drawn as one of x0, x0.5, x1 or x2, and only x1 is unlabelled. */
  lemma EntryRange(data: Chart, attacker: string, defender: string)
    requires forall a, d :: a in data && d in data[a] ==> data[a][d] in {0.0, 1.0, 2.0, 5.0}
    ensures Entry(data, attacker, defender) in {0.0, 0.5, 1.0, 2.0}
    ensures Label(Entry(data, attacker, defender)) == "" <==> Entry(data, attacker, defender) == 1.0
  {
  }

  /** A later record for the same pair overwrites an earlier one, and
      records for other pairs are kept. */
  lemma {:induction false} ReadLastWins(rows: seq<seq<string>>, a: string, d: string, v: real)
    requires rows != [] && ToRecord(rows[|rows| - 1]) == Cell(a, d, v)
    requires ReadSpec(rows[..|rows| - 1]).Some?
    ensures ReadSpec(rows).Some?
    ensures var (data, _) := ReadSpec(rows).value;
      var (before, _) := ReadSpec(rows[..|rows| - 1]).value;
      a in data && d in data[a] && data[a][d] == v
      && (forall a', d' :: a' in before && d' in before[a'] && (a' != a || d' != d) ==>
            a' in data && d' in data[a'] && data[a'][d'] == before[a'][d'])
  {
    var before := ReadSpec(rows[..|rows| - 1]).value.0;
    PutEffect(before, a, d, v);
  }

  /** Every type named by a kept record is in the type set, and every
      attacker in the map is a type. */
  lemma {:induction false} ReadTypesCover(rows: seq<seq<string>>)
    requires ReadSpec(rows).Some?
    ensures var (data, types) := ReadSpec(rows).value;
      forall a :: a in data ==> a in types && forall d :: d in data[a] ==> d in types
    decreases |rows|
  {
    if rows != [] {
      ReadTypesCover(rows[..|rows| - 1]);
    }
  }
}
