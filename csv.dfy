/** The CSV line tokenizer shared by the drool pages, the export-side
    quoting rule, and the loaders of drool/utils.js that turn the text of
    mons.csv, moves.csv, abilities.csv and types.csv into rows. */
module Csv {
  import opened Text
  import opened JsValues

  // ---------------------------------------------------------------------
  // Tokenizer

  /** The tokenizer as a state machine over the rest of the line: the
      field being built, whether a quote is open, and the fields done. */
  function Scan(s: string, cur: string, inQuotes: bool, acc: seq<string>): (r: seq<string>)
    ensures |r| > |acc|
    decreases |s|
  {
    if s == [] then acc + [cur]
    else if s[0] == '"' then
      if inQuotes && |s| >= 2 && s[1] == '"' then Scan(s[2..], cur + "\"", inQuotes, acc)
      else Scan(s[1..], cur, !inQuotes, acc)
    else if s[0] == ',' && !inQuotes then Scan(s[1..], "", inQuotes, acc + [cur])
    else Scan(s[1..], cur + [s[0]], inQuotes, acc)
  }

  /** The fields of one CSV line. */
  function Fields(line: string): (r: seq<string>)
    ensures |r| >= 1
  {
    Scan(line, "", false, [])
  }

  /** parseCsvLine: a character loop with a quote toggle, a `""` escape
      that skips a character, and a push of the last field. */
  method ParseCsvLine(line: string) returns (result: seq<string>)
    ensures result == Fields(line)
  {
    result := [];
    var current := "";
    var inQuotes := false;
    var i := 0;
    while i < |line|
      invariant 0 <= i <= |line|
      invariant Scan(line[i..], current, inQuotes, result) == Fields(line)
    {
      var c := line[i];
      if c == '"' {
        if inQuotes && i + 1 < |line| && line[i + 1] == '"' {
          assert line[i..][2..] == line[i + 2..];
          current := current + "\"";
          i := i + 1;
        } else {
          assert line[i..][1..] == line[i + 1..];
          inQuotes := !inQuotes;
        }
      } else if c == ',' && !inQuotes {
        assert line[i..][1..] == line[i + 1..];
        result := result + [current];
        current := "";
      } else {
        assert line[i..][1..] == line[i + 1..];
        current := current + [c];
      }
      i := i + 1;
    }
    result := result + [current];
  }

  /** Commas outside quotes, where a comma is inside quotes exactly when an
      odd number of `"` characters precede it on the line. */
  function UnquotedCommas(s: string, odd: bool): nat
  {
    if s == [] then 0
    else (if s[0] == ',' && !odd then 1 else 0) + UnquotedCommas(s[1..], odd != (s[0] == '"'))
  }

  lemma {:induction false} ScanLength(s: string, cur: string, inQuotes: bool, acc: seq<string>)
    ensures |Scan(s, cur, inQuotes, acc)| == |acc| + 1 + UnquotedCommas(s, inQuotes)
    decreases |s|
  {
    if s == [] {
    } else if s[0] == '"' {
      if inQuotes && |s| >= 2 && s[1] == '"' {
        ScanLength(s[2..], cur + "\"", inQuotes, acc);
        assert s[1..][1..] == s[2..];
      } else {
        ScanLength(s[1..], cur, !inQuotes, acc);
      }
    } else if s[0] == ',' && !inQuotes {
      ScanLength(s[1..], "", inQuotes, acc + [cur]);
    } else {
      ScanLength(s[1..], cur + [s[0]], inQuotes, acc);
    }
  }

  /** The field count is the number of unquoted commas plus one. */
  lemma FieldCount(line: string)
    ensures |Fields(line)| == UnquotedCommas(line, false) + 1
  {
    ScanLength(line, "", false, []);
  }

  lemma NotInTail(s: string, c: char)
    requires s != [] && c !in s
    ensures c !in s[1..]
  {
    assert forall x :: x in s[1..] ==> x in s;
  }

  /** The statement of ScanQuoteFree for one rest of line. */
  predicate ScansAsSplit(s: string, cur: string, acc: seq<string>)
  {
    var p := Split(s, ',');
    Scan(s, cur, false, acc) == acc + [cur + p[0]] + p[1..]
  }

  lemma QuoteFreeComma(s: string, cur: string, acc: seq<string>)
    requires s != [] && s[0] == ','
    requires ScansAsSplit(s[1..], "", acc + [cur])
    ensures ScansAsSplit(s, cur, acc)
  {
    var p := Split(s[1..], ',');
    assert Split(s, ',') == [""] + p;
    assert ([""] + p)[1..] == p;
    assert "" + p[0] == p[0];
    assert cur + "" == cur;
    assert [p[0]] + p[1..] == p;
    assert acc + [cur] + [p[0]] + p[1..] == acc + [cur] + ([p[0]] + p[1..]);
  }

  lemma QuoteFreeChar(s: string, cur: string, acc: seq<string>)
    requires s != [] && s[0] != ',' && s[0] != '"'
    requires ScansAsSplit(s[1..], cur + [s[0]], acc)
    ensures ScansAsSplit(s, cur, acc)
  {
    var p := Split(s[1..], ',');
    assert Split(s, ',') == [[s[0]] + p[0]] + p[1..];
    assert cur + [s[0]] + p[0] == cur + ([s[0]] + p[0]);
  }

  lemma {:induction false} ScanQuoteFree(s: string, cur: string, acc: seq<string>)
    requires '"' !in s
    ensures var p := Split(s, ',');
      Scan(s, cur, false, acc) == acc + [cur + p[0]] + p[1..]
    decreases |s|
  {
    if s == [] {
      assert cur + "" == cur;
    } else {
      NotInTail(s, '"');
      if s[0] == ',' {
        ScanQuoteFree(s[1..], "", acc + [cur]);
        QuoteFreeComma(s, cur, acc);
      } else {
        ScanQuoteFree(s[1..], cur + [s[0]], acc);
        QuoteFreeChar(s, cur, acc);
      }
    }
  }

  /** On a line without `"` the tokenizer is a plain split on commas. */
  lemma FieldsQuoteFree(line: string)
    requires '"' !in line
    ensures Fields(line) == Split(line, ',')
  {
    ScanQuoteFree(line, "", []);
    var p := Split(line, ',');
    assert "" + p[0] == p[0];
    assert [] + [p[0]] + p[1..] == p;
  }

  // ---------------------------------------------------------------------
  // Export quoting

  /** Every `"` doubled (`value.replace(/"/g, '""')`). */
  function DoubleQuotes(s: string): (r: string)
    ensures |r| == |s| + CountChar(s, '"')
  {
    if s == [] then []
    else (if s[0] == '"' then "\"\"" else [s[0]]) + DoubleQuotes(s[1..])
  }

  predicate NeedsQuoting(s: string)
  {
    ',' in s || '"' in s || '\n' in s
  }

  /** The export rule for a string value: wrapped in quotes, inner quotes
      doubled, when it holds a comma, a quote or a newline. */
  function QuoteField(s: string): (r: string)
    ensures !NeedsQuoting(s) ==> r == s
    ensures NeedsQuoting(s) ==> |r| >= 2 && r[0] == '"' && r[|r| - 1] == '"'
  {
    if NeedsQuoting(s) then "\"" + DoubleQuotes(s) + "\"" else s
  }

  lemma ScanEscapedQuote(t: string, cur: string, acc: seq<string>)
    ensures Scan("\"\"" + t, cur, true, acc) == Scan(t, cur + "\"", true, acc)
  {
    assert ("\"\"" + t)[2..] == t;
  }

  lemma ScanOrdinary(c: char, t: string, cur: string, inQuotes: bool, acc: seq<string>)
    requires c != '"' && (c != ',' || inQuotes)
    ensures Scan([c] + t, cur, inQuotes, acc) == Scan(t, cur + [c], inQuotes, acc)
  {
    assert ([c] + t)[1..] == t;
  }

  lemma ScanClosingQuote(rest: string, cur: string, acc: seq<string>)
    requires rest == [] || rest[0] != '"'
    ensures Scan("\"" + rest, cur, true, acc) == Scan(rest, cur, false, acc)
  {
    assert ("\"" + rest)[1..] == rest;
  }

  /** The statement of ScanEscaped for one quoted body. */
  predicate EscapedScansBack(f: string, cur: string, acc: seq<string>, rest: string)
  {
    Scan(DoubleQuotes(f) + "\"" + rest, cur, true, acc) == Scan(rest, cur + f, false, acc)
  }

  lemma EscapedEmpty(cur: string, acc: seq<string>, rest: string)
    requires rest == [] || rest[0] != '"'
    ensures EscapedScansBack([], cur, acc, rest)
  {
    assert DoubleQuotes([]) + "\"" + rest == "\"" + rest;
    ScanClosingQuote(rest, cur, acc);
    assert cur + [] == cur;
  }

  /** The doubled body of `f` starts with the doubling of its first character. */
  lemma DoubleQuotesCons(f: string, rest: string)
    requires f != []
    ensures DoubleQuotes(f) + "\"" + rest
         == (if f[0] == '"' then "\"\"" else [f[0]]) + (DoubleQuotes(f[1..]) + "\"" + rest)
  {
  }

  lemma ConsTail(cur: string, f: string)
    requires f != []
    ensures cur + [f[0]] + f[1..] == cur + f
  {
    assert [f[0]] + f[1..] == f;
  }

  lemma EscapedQuoteStep(f: string, cur: string, acc: seq<string>, rest: string)
    requires f != [] && f[0] == '"'
    requires EscapedScansBack(f[1..], cur + [f[0]], acc, rest)
    ensures EscapedScansBack(f, cur, acc, rest)
  {
    var t := DoubleQuotes(f[1..]) + "\"" + rest;
    DoubleQuotesCons(f, rest);
    ScanEscapedQuote(t, cur, acc);
    assert cur + "\"" == cur + [f[0]];
    ConsTail(cur, f);
  }

  lemma EscapedCharStep(f: string, cur: string, acc: seq<string>, rest: string)
    requires f != [] && f[0] != '"'
    requires EscapedScansBack(f[1..], cur + [f[0]], acc, rest)
    ensures EscapedScansBack(f, cur, acc, rest)
  {
    var t := DoubleQuotes(f[1..]) + "\"" + rest;
    DoubleQuotesCons(f, rest);
    ScanOrdinary(f[0], t, cur, true, acc);
    ConsTail(cur, f);
  }

  /** A quoted body followed by its closing quote reads back as the
      original text and leaves the quote closed. */
  lemma {:induction false} ScanEscaped(f: string, cur: string, acc: seq<string>, rest: string)
    requires rest == [] || rest[0] != '"'
    ensures Scan(DoubleQuotes(f) + "\"" + rest, cur, true, acc) == Scan(rest, cur + f, false, acc)
    decreases |f|
  {
    if f == [] {
      EscapedEmpty(cur, acc, rest);
    } else {
      ScanEscaped(f[1..], cur + [f[0]], acc, rest);
      if f[0] == '"' {
        EscapedQuoteStep(f, cur, acc, rest);
      } else {
        EscapedCharStep(f, cur, acc, rest);
      }
    }
  }

  lemma {:induction false} ScanPlain(f: string, cur: string, acc: seq<string>, rest: string)
    requires ',' !in f && '"' !in f
    ensures Scan(f + rest, cur, false, acc) == Scan(rest, cur + f, false, acc)
    decreases |f|
  {
    if f == [] {
      assert f + rest == rest;
      assert cur + f == cur;
    } else {
      assert (f + rest)[1..] == f[1..] + rest;
      assert ',' !in f[1..] && '"' !in f[1..] by {
        assert forall c :: c in f[1..] ==> c in f;
      }
      ScanPlain(f[1..], cur + [f[0]], acc, rest);
      assert cur + [f[0]] + f[1..] == cur + f;
    }
  }

  lemma ScanQuoted(f: string, acc: seq<string>, rest: string)
    requires rest == [] || rest[0] == ','
    ensures Scan(QuoteField(f) + rest, "", false, acc) == Scan(rest, f, false, acc)
  {
    if NeedsQuoting(f) {
      var body := DoubleQuotes(f) + "\"" + rest;
      assert QuoteField(f) + rest == "\"" + body;
      assert ("\"" + body)[1..] == body;
      ScanEscaped(f, "", acc, rest);
      assert "" + f == f;
    } else {
      ScanPlain(f, "", acc, rest);
      assert "" + f == f;
    }
  }

  /** The exported line: quoted fields joined by commas. */
  function ExportLine(fields: seq<string>): string
  {
    Join(seq(|fields|, k requires 0 <= k < |fields| => QuoteField(fields[k])), ',')
  }

  lemma {:induction false} ScanExportLine(fields: seq<string>, acc: seq<string>)
    requires |fields| >= 1
    ensures Scan(ExportLine(fields), "", false, acc) == acc + fields
    decreases |fields|
  {
    if |fields| == 1 {
      ExportLineSingle(fields);
      ScanQuoted(fields[0], acc, "");
      assert [fields[0]] == fields;
    } else {
      var tail := fields[1..];
      var rest := [','] + ExportLine(tail);
      ExportLineCons(fields);
      ScanQuoted(fields[0], acc, rest);
      ScanComma(ExportLine(tail), fields[0], acc);
      ScanExportLine(tail, acc + [fields[0]]);
      ConsFields(acc, fields);
    }
  }

  lemma ExportLineSingle(fields: seq<string>)
    requires |fields| == 1
    ensures ExportLine(fields) == QuoteField(fields[0]) + ""
  {
  }

  lemma ExportLineCons(fields: seq<string>)
    requires |fields| >= 2
    ensures ExportLine(fields) == QuoteField(fields[0]) + ([','] + ExportLine(fields[1..]))
  {
    var q := seq(|fields|, k requires 0 <= k < |fields| => QuoteField(fields[k]));
    var tail := fields[1..];
    var qt := seq(|tail|, k requires 0 <= k < |tail| => QuoteField(tail[k]));
    assert q[1..] == qt;
  }

  lemma ScanComma(t: string, cur: string, acc: seq<string>)
    ensures Scan([','] + t, cur, false, acc) == Scan(t, "", false, acc + [cur])
  {
    assert ([','] + t)[1..] == t;
  }

  lemma ConsFields(acc: seq<string>, fields: seq<string>)
    requires |fields| >= 1
    ensures acc + [fields[0]] + fields[1..] == acc + fields
  {
    assert [fields[0]] + fields[1..] == fields;
  }

  /** Reading an exported line back with the tokenizer gives the fields. */
  lemma ExportRoundTrip(fields: seq<string>)
    requires |fields| >= 1
    ensures Fields(ExportLine(fields)) == fields
  {
    ScanExportLine(fields, []);
  }

  // ---------------------------------------------------------------------
  // Loaders

  /** Which of the three row loaders of drool/utils.js is meant. */
  datatype Loader = Mons | Moves | Abilities

  predicate IsMonNumberHeader(h: string)
  {
    h in ["HP", "Attack", "Defense", "SpecialAttack", "SpecialDefense", "Speed", "BST"]
  }

  predicate IsMoveNumberHeader(h: string)
  {
    h in ["Power", "Stamina", "Accuracy"]
  }

  /** The value a loader stores for `header` given the field (None when
      the line has fewer fields than there are headers). */
  function Coerce(kind: Loader, header: string, value: Option<string>): (c: Cell)
    ensures kind == Mons && IsMonNumberHeader(header) ==> c.Num?
    ensures kind == Moves && IsMoveNumberHeader(header) ==> c.Num? || c == Str("?")
    ensures c.Str? && c != Str("?") ==> c == Str(OrEmpty(value))
    ensures c.Num? ==> c == Num(ParseIntOr0(OrEmpty(value)) as real)
  {
    var v := OrEmpty(value);
    match kind
    case Mons =>
      if IsMonNumberHeader(header) then Num(ParseIntOr0(v) as real) else Str(v)
    case Moves =>
      if IsMoveNumberHeader(header) then
        if value == Some("?") then Str("?") else Num(ParseIntOr0(v) as real)
      else Str(v)
    case Abilities => Str(v)
  }

  /** `values[index] || ""`. */
  function OrEmpty(value: Option<string>): string
  {
    match value case Some(v) => v case None => ""
  }

  function FieldAt(values: seq<string>, k: nat): Option<string>
  {
    if k < |values| then Some(values[k]) else None
  }

  /** The row object after the first `n` headers have been assigned. */
  function BuildRow(kind: Loader, headers: seq<string>, values: seq<string>, n: nat): Row
    requires n <= |headers|
  {
    if n == 0 then map[]
    else BuildRow(kind, headers, values, n - 1)[headers[n - 1] :=
      Coerce(kind, headers[n - 1], FieldAt(values, n - 1))]
  }

  /** The row holds exactly the headers. */
  lemma {:induction false} BuildRowKeys(kind: Loader, headers: seq<string>, values: seq<string>, n: nat)
    requires n <= |headers|
    ensures BuildRow(kind, headers, values, n).Keys == set k | 0 <= k < n :: headers[k]
  {
    if n > 0 {
      BuildRowKeys(kind, headers, values, n - 1);
      assert (set k | 0 <= k < n :: headers[k]) ==
        (set k | 0 <= k < n - 1 :: headers[k]) + {headers[n - 1]};
    }
  }

  /** A header takes the field at its last position, so when a header
      occurs twice the later field wins. */
  lemma {:induction false} BuildRowLastWins(kind: Loader, headers: seq<string>, values: seq<string>, n: nat, k: nat)
    requires k < n <= |headers|
    requires forall j :: k < j < n ==> headers[j] != headers[k]
    ensures headers[k] in BuildRow(kind, headers, values, n)
    ensures BuildRow(kind, headers, values, n)[headers[k]] == Coerce(kind, headers[k], FieldAt(values, k))
  {
    if k < n - 1 {
      BuildRowLastWins(kind, headers, values, n - 1, k);
    }
  }

  /** The row a data line contributes: none for a blank line or an empty
      first field. */
  function LineRow(kind: Loader, headers: seq<string>, line: string): seq<Row>
  {
    var t := Trim(line);
    if t == "" then []
    else
      var values := Fields(t);
      if values[0] == "" then [] else [BuildRow(kind, headers, values, |headers|)]
  }

  /** The rows from a sequence of data lines, in file order. */
  function DataRows(kind: Loader, headers: seq<string>, lines: seq<string>): seq<Row>
  {
    if lines == [] then []
    else DataRows(kind, headers, lines[..|lines| - 1]) + LineRow(kind, headers, lines[|lines| - 1])
  }

  /** The header line's names, each trimmed. */
  function Headers(line: string): (h: seq<string>)
    ensures |h| == CountChar(line, ',') + 1
  {
    var p := Split(line, ',');
    seq(|p|, k requires 0 <= k < |p| => Trim(p[k]))
  }

  /** The row list the loader returns for a file's text. */
  function LoadSpec(kind: Loader, content: string): seq<Row>
  {
    var lines := SplitLines(content);
    if |lines| < 2 then [] else DataRows(kind, Headers(lines[0]), lines[1..])
  }

  method BuildRowLoop(kind: Loader, headers: seq<string>, values: seq<string>) returns (row: Row)
    ensures row == BuildRow(kind, headers, values, |headers|)
  {
    row := map[];
    for k := 0 to |headers|
      invariant row == BuildRow(kind, headers, values, k)
    {
      var value := if k < |values| then Some(values[k]) else None;
      row := row[headers[k] := Coerce(kind, headers[k], value)];
    }
  }

  /** The rows from the data lines after the header line, in file order. */
  method ReadDataRows(kind: Loader, headers: seq<string>, lines: seq<string>) returns (rows: seq<Row>)
    requires |lines| >= 1
    ensures rows == DataRows(kind, headers, lines[1..])
  {
    rows := [];
    for i := 1 to |lines|
      invariant rows == DataRows(kind, headers, lines[1..i])
    {
      DataRowsStep(kind, headers, lines, i);
      var line := Trim(lines[i]);
      if line == "" {
        continue;
      }
      var values := ParseCsvLine(line);
      if values[0] != "" {
        var row := BuildRowLoop(kind, headers, values);
        rows := rows + [row];
      }
    }
    assert lines[1..|lines|] == lines[1..];
  }

  /** loadFullMonsFromCsv, loadMovesFromCsv and loadAbilitiesFromCsv on
      the fetched text. */
  method LoadRows(content: string, kind: Loader) returns (rows: seq<Row>)
    ensures rows == LoadSpec(kind, content)
  {
    var lines := SplitLines(content);
    if |lines| < 2 {
      return [];
    }
    var headers := Headers(lines[0]);
    rows := ReadDataRows(kind, headers, lines);
  }

  lemma DataRowsStep(kind: Loader, headers: seq<string>, lines: seq<string>, i: nat)
    requires 1 <= i < |lines|
    ensures DataRows(kind, headers, lines[1..i + 1]) ==
      DataRows(kind, headers, lines[1..i]) + LineRow(kind, headers, lines[i])
  {
    assert lines[1..i + 1][..i - 1] == lines[1..i];
  }

  /** Keeping rows in file order: the rows of two stretches of lines are
      the rows of the first followed by those of the second. */
  lemma {:induction false} DataRowsAppend(kind: Loader, headers: seq<string>, a: seq<string>, b: seq<string>)
    ensures DataRows(kind, headers, a + b) == DataRows(kind, headers, a) + DataRows(kind, headers, b)
    decreases |b|
  {
    if b == [] {
      assert a + b == a;
    } else {
      var b', last := b[..|b| - 1], b[|b| - 1];
      var extra := LineRow(kind, headers, last);
      InitOfAppend(a, b);
      DataRowsAppend(kind, headers, a, b');
      assert DataRows(kind, headers, a + b) == DataRows(kind, headers, a + b') + extra;
      assert DataRows(kind, headers, a) + DataRows(kind, headers, b') + extra
          == DataRows(kind, headers, a) + (DataRows(kind, headers, b') + extra);
    }
  }

  /** A line is skipped exactly when it is blank after trimming or its
      first field is empty; every row kept carries all headers. */
  lemma LineRowSkip(kind: Loader, headers: seq<string>, line: string)
    ensures LineRow(kind, headers, line) == [] <==>
      Trim(line) == "" || Fields(Trim(line))[0] == ""
    ensures forall r :: r in LineRow(kind, headers, line) ==>
      r.Keys == set k | 0 <= k < |headers| :: headers[k]
  {
    if Trim(line) != "" && Fields(Trim(line))[0] != "" {
      BuildRowKeys(kind, headers, Fields(Trim(line)), |headers|);
    }
  }

  // ---------------------------------------------------------------------
  // Type chart

  /** The nested attacker -> defender -> value map of loadTypeData. A
      missing second field is the key "undefined" and a missing third field
      is None (`undefined`). */
  type TypeTable = map<string, map<string, Option<string>>>

  function AddTypeLine(m: TypeTable, line: string): TypeTable
  {
    var t := Trim(line);
    if t == "" then m
    else
      var values := Fields(t);
      var attacker := values[0];
      var defender := if |values| >= 2 then values[1] else "undefined";
      var value := if |values| >= 3 then Some(values[2]) else None;
      var inner := if attacker in m then m[attacker] else map[];
      m[attacker := inner[defender := value]]
  }

  function TypeLines(m: TypeTable, lines: seq<string>): TypeTable
  {
    if lines == [] then m else AddTypeLine(TypeLines(m, lines[..|lines| - 1]), lines[|lines| - 1])
  }

  function TypeSpec(content: string): TypeTable
  {
    var lines := SplitLines(content);
    if |lines| < 2 then map[] else TypeLines(map[], lines[1..])
  }

  /** loadTypeData on the fetched text. */
  method LoadTypeData(content: string) returns (typeData: TypeTable)
    ensures typeData == TypeSpec(content)
  {
    var lines := SplitLines(content);
    if |lines| < 2 {
      return map[];
    }
    typeData := map[];
    for i := 1 to |lines|
      invariant typeData == TypeLines(map[], lines[1..i])
    {
      TypeLinesStep(lines, i);
      var line := Trim(lines[i]);
      if line == "" {
        continue;
      }
      var values := ParseCsvLine(line);
      var defender := if |values| >= 2 then values[1] else "undefined";
      var value := if |values| >= 3 then Some(values[2]) else None;
      ghost var next := AddTypeLine(typeData, lines[i]);
      if values[0] !in typeData {
        OverwriteKey(typeData, values[0], map[], map[][defender := value]);
        typeData := typeData[values[0] := map[]];
        typeData := typeData[values[0] := typeData[values[0]][defender := value]];
      } else {
        typeData := typeData[values[0] := typeData[values[0]][defender := value]];
      }
      assert typeData == next;
    }
    assert lines[1..|lines|] == lines[1..];
  }

  lemma OverwriteKey<K, V>(m: map<K, V>, k: K, x: V, y: V)
    ensures m[k := x][k := y] == m[k := y]
  {
  }

  lemma TypeLinesStep(lines: seq<string>, i: nat)
    requires 1 <= i < |lines|
    ensures TypeLines(map[], lines[1..i + 1]) == AddTypeLine(TypeLines(map[], lines[1..i]), lines[i])
  {
    assert lines[1..i + 1][..i - 1] == lines[1..i];
  }

  /** A type line sets its own entry and leaves every other entry as it
      was, so a later duplicate line overwrites an earlier one. */
  lemma AddTypeLineEffect(m: TypeTable, line: string, a: string, d: string)
    requires Trim(line) != ""
    ensures var values := Fields(Trim(line));
      var defender := if |values| >= 2 then values[1] else "undefined";
      var value := if |values| >= 3 then Some(values[2]) else None;
      var r := AddTypeLine(m, line);
      values[0] in r && r[values[0]][defender] == value &&
      (a in m && d in m[a] && (a, d) != (values[0], defender) ==> a in r && d in r[a] && r[a][d] == m[a][d]) &&
      (a in r && d in r[a] && (a, d) != (values[0], defender) ==> a in m && d in m[a])
  {
  }
}
