/** The generator of the Solidity deployment script: the mon table read
    from the mons file, the moves and abilities attached to each mon, the
    contracts each mon needs, and the parts of the generated script that
    fix the order of deployment and the size of each mon's move and ability
    arrays. */
module Deploy {
  import opened Text
  import opened PyNumbers
  import opened Sorting
  import opened SolNames

  /** One record of the mons file, by column. */
  datatype MonRow = MonRow(
    id: string, name: string, hp: string, speed: string, attack: string,
    defense: string, specialAttack: string, specialDefense: string,
    type1: string, type2: string)

  /** The scalar fields of a MonData. */
  datatype MonStats = MonStats(
    monId: int, name: string, hp: int, stamina: int, speed: int,
    attack: int, defense: int, specialAttack: int, specialDefense: int,
    type1: string, type2: string)

  /** A mon: its stats and the move and ability lists that the later files
      append to. */
  class MonData {
    const monId: int
    const name: string
    const hp: int
    const stamina: int
    const speed: int
    const attack: int
    const defense: int
    const specialAttack: int
    const specialDefense: int
    const type1: string
    const type2: string
    var moves: seq<string>
    var abilities: seq<string>

    constructor (stats: MonStats)
      ensures Stats() == stats && moves == [] && abilities == []
    {
      monId := stats.monId;
      name := stats.name;
      hp := stats.hp;
      stamina := stats.stamina;
      speed := stats.speed;
      attack := stats.attack;
      defense := stats.defense;
      specialAttack := stats.specialAttack;
      specialDefense := stats.specialDefense;
      type1 := stats.type1;
      type2 := stats.type2;
      moves := [];
      abilities := [];
    }

    function Stats(): MonStats
    {
      MonStats(monId, name, hp, stamina, speed, attack, defense, specialAttack, specialDefense, type1, type2)
    }
  }

  /** The columns read_mons_csv passes through `int()`, in the order of
      MonStats. */
  function NumericColumns(row: MonRow): (r: seq<string>)
    ensures |r| == 7
  {
    [row.id, row.hp, row.speed, row.attack, row.defense, row.specialAttack, row.specialDefense]
  }

  /** `int()` on each field, or None when it raises on any of them. */
  function PyInts(fields: seq<string>): (r: Option<seq<int>>)
    ensures r.Some? ==> |r.value| == |fields|
    decreases |fields|
  {
    if fields == [] then Some([])
    else
      match (PyInt(fields[0]), PyInts(fields[1..]))
      case (Some(x), Some(xs)) => Some([x] + xs)
      case _ => None
  }

  /** PyInts succeeds exactly when every field is an integer, and then
      holds their values. */
  lemma {:induction false} PyIntsCorrect(fields: seq<string>)
    ensures PyInts(fields).Some? <==> forall k :: 0 <= k < |fields| ==> PyInt(fields[k]).Some?
    ensures PyInts(fields).Some? ==> forall k :: 0 <= k < |fields| ==> PyInts(fields).value[k] == PyInt(fields[k]).value
    decreases |fields|
  {
    if fields != [] {
      PyIntsCorrect(fields[1..]);
      assert forall k :: 1 <= k < |fields| ==> fields[1..][k - 1] == fields[k];
    }
  }

  /** The MonData of one record: the numeric columns through `int()`, the
      stamina always 5; None when `int()` raises. */
  function ParseMon(row: MonRow): (r: Option<MonStats>)
    ensures r.Some? ==> (r.value.stamina == 5 && r.value.name == row.name
                         && r.value.type1 == row.type1 && r.value.type2 == row.type2)
  {
    match PyInts(NumericColumns(row))
    case None => None
    case Some(v) =>
      Some(MonStats(v[0], row.name, v[1], 5, v[2], v[3], v[4], v[5], v[6], row.type1, row.type2))
  }

  /** A record parses exactly when each numeric column is an integer, and
      then each stat is that column's value. */
  lemma ParseMonCorrect(row: MonRow)
    ensures ParseMon(row).Some? <==> forall k :: 0 <= k < 7 ==> PyInt(NumericColumns(row)[k]).Some?
    ensures ParseMon(row).Some? ==> var m := ParseMon(row).value;
      && Some(m.monId) == PyInt(row.id) && Some(m.hp) == PyInt(row.hp) && Some(m.speed) == PyInt(row.speed)
      && Some(m.attack) == PyInt(row.attack) && Some(m.defense) == PyInt(row.defense)
      && Some(m.specialAttack) == PyInt(row.specialAttack) && Some(m.specialDefense) == PyInt(row.specialDefense)
  {
    var c := NumericColumns(row);
    PyIntsCorrect(c);
    if ParseMon(row).Some? {
      var v := PyInts(c).value;
      assert v[0] == PyInt(c[0]).value && v[1] == PyInt(c[1]).value && v[2] == PyInt(c[2]).value;
      assert v[3] == PyInt(c[3]).value && v[4] == PyInt(c[4]).value;
      assert v[5] == PyInt(c[5]).value && v[6] == PyInt(c[6]).value;
    }
  }

  /** The table of mons: the names in the order a Python dict keeps them
      (first insertion) and the stats under each name. */
  datatype MonTable = MonTable(order: seq<string>, stats: map<string, MonStats>)

  /** `mons[name] = MonData(...)`: the entry is replaced, and a new name
      goes to the end of the key order. */
  function Enter(t: MonTable, st: MonStats): (r: MonTable)
    ensures st.name in r.stats && r.stats[st.name] == st
    ensures forall n :: n != st.name && n in t.stats ==> n in r.stats && r.stats[n] == t.stats[n]
    ensures r.stats.Keys == t.stats.Keys + {st.name}
  {
    MonTable(if st.name in t.stats then t.order else t.order + [st.name], t.stats[st.name := st])
  }

  /** int() applied to the columns of every record. */
  function Parsed(rows: seq<MonRow>): (r: seq<Option<MonStats>>)
    ensures |r| == |rows| && forall k :: 0 <= k < |rows| ==> r[k] == ParseMon(rows[k])
  {
    seq(|rows|, k requires 0 <= k < |rows| => ParseMon(rows[k]))
  }

  /** read_mons_csv on parsed records: each record enters its stats under
      its name; None as soon as a record has a malformed number. */
  function Table(parsed: seq<Option<MonStats>>): Option<MonTable>
  {
    if parsed == [] then Some(MonTable([], map[]))
    else
      match Table(parsed[..|parsed| - 1])
      case None => None
      case Some(t) =>
        match parsed[|parsed| - 1]
        case None => None
        case Some(st) => Some(Enter(t, st))
  }

  lemma TableAll(parsed: seq<Option<MonStats>>)
    ensures Table(parsed[..|parsed|]) == Table(parsed)
  {
    assert parsed[..|parsed|] == parsed;
  }

  lemma TableStep(parsed: seq<Option<MonStats>>, i: nat)
    requires i < |parsed|
    ensures Table(parsed[..i + 1]) ==
      match Table(parsed[..i])
      case None => None
      case Some(t) => (match parsed[i] case None => None case Some(st) => Some(Enter(t, st)))
  {
    assert parsed[..i + 1][..i] == parsed[..i];
  }

  /** A dict's key order: each key once, exactly the keys. */
  predicate OrderOf<V>(order: seq<string>, m: map<string, V>)
  {
    (forall i, j :: 0 <= i < j < |order| ==> order[i] != order[j])
    && (forall n :: n in order ==> n in m)
    && (forall n :: n in m ==> n in order)
  }

  /** Entering a record keeps the key order a key order. */
  lemma EnterKeepsOrder(t: MonTable, st: MonStats)
    requires OrderOf(t.order, t.stats)
    ensures OrderOf(Enter(t, st).order, Enter(t, st).stats)
  {
  }

  /** One malformed record fails the whole table. */
  lemma TableFailsAt(parsed: seq<Option<MonStats>>, i: nat)
    requires i < |parsed| && parsed[i].None?
    ensures Table(parsed).None?
  {
    TableSomeIffAllParse(parsed);
  }

  /** The table is built exactly when every record parses. */
  lemma {:induction false} TableSomeIffAllParse(parsed: seq<Option<MonStats>>)
    ensures Table(parsed).Some? <==> forall k :: 0 <= k < |parsed| ==> parsed[k].Some?
    decreases |parsed|
  {
    if parsed != [] {
      var i := |parsed| - 1;
      TableStep(parsed, i);
      assert parsed[..i + 1] == parsed;
      TableSomeIffAllParse(parsed[..i]);
      assert forall k :: 0 <= k < i ==> parsed[..i][k] == parsed[k];
    }
  }

  /** The table's order lists its names once each and every entry is one
      of the records, filed under its own name. */
  lemma {:induction false} TableOrder(parsed: seq<Option<MonStats>>)
    requires Table(parsed).Some?
    ensures var t := Table(parsed).value;
      && OrderOf(t.order, t.stats)
      && (forall n :: n in t.stats ==> t.stats[n].name == n && Some(t.stats[n]) in parsed)
    decreases |parsed|
  {
    if parsed != [] {
      var i := |parsed| - 1;
      TableStep(parsed, i);
      assert parsed[..i + 1] == parsed;
      TableOrder(parsed[..i]);
      EnterKeepsOrder(Table(parsed[..i]).value, parsed[i].value);
      assert forall x :: x in parsed[..i] ==> x in parsed;
    }
  }

  /** The names of the records that parse. */
  function Names(parsed: seq<Option<MonStats>>): set<string>
  {
    if parsed == [] then {}
    else Names(parsed[..|parsed| - 1]) + (if parsed[|parsed| - 1].Some? then {parsed[|parsed| - 1].value.name} else {})
  }

  lemma {:induction false} NamesMembers(parsed: seq<Option<MonStats>>)
    ensures forall n :: n in Names(parsed) <==> exists k :: 0 <= k < |parsed| && parsed[k].Some? && parsed[k].value.name == n
    decreases |parsed|
  {
    if parsed != [] {
      var init := parsed[..|parsed| - 1];
      NamesMembers(init);
      assert forall k :: 0 <= k < |init| ==> init[k] == parsed[k];
    }
  }

  /** The keys are exactly the names of the records. */
  lemma {:induction false} TableKeys(parsed: seq<Option<MonStats>>)
    requires Table(parsed).Some?
    ensures Table(parsed).value.stats.Keys == Names(parsed)
    decreases |parsed|
  {
    if parsed != [] {
      var i := |parsed| - 1;
      TableStep(parsed, i);
      assert parsed[..i + 1] == parsed;
      TableKeys(parsed[..i]);
    }
  }

  /** The entry of a name is the last record of that name. */
  lemma TableLastWins(parsed: seq<Option<MonStats>>, k: nat)
    requires Table(parsed).Some? && k < |parsed|
    ensures parsed[k].Some?
    ensures (forall k' :: k < k' < |parsed| ==> parsed[k'].Some? && parsed[k'].value.name != parsed[k].value.name) ==>
      (parsed[k].value.name in Table(parsed).value.stats && Table(parsed).value.stats[parsed[k].value.name] == parsed[k].value)
  {
    TableSomeIffAllParse(parsed);
    if forall k' :: k < k' < |parsed| ==> parsed[k'].Some? && parsed[k'].value.name != parsed[k].value.name {
      LastEntry(parsed, k);
    }
  }

  lemma {:induction false} LastEntry(parsed: seq<Option<MonStats>>, k: nat)
    requires Table(parsed).Some? && k < |parsed| && parsed[k].Some?
    requires forall k' :: k < k' < |parsed| ==> parsed[k'].Some? && parsed[k'].value.name != parsed[k].value.name
    ensures parsed[k].value.name in Table(parsed).value.stats
    ensures Table(parsed).value.stats[parsed[k].value.name] == parsed[k].value
    decreases |parsed|
  {
    TableLast(parsed);
    if k < |parsed| - 1 {
      var init := parsed[..|parsed| - 1];
      InitAgrees(parsed);
      LastEntry(init, k);
    }
  }

  /** The table of a non-empty record list enters the last record into
      the table of the others. */
  lemma TableLast(parsed: seq<Option<MonStats>>)
    requires parsed != [] && Table(parsed).Some?
    ensures Table(parsed[..|parsed| - 1]).Some? && parsed[|parsed| - 1].Some?
    ensures Table(parsed).value == Enter(Table(parsed[..|parsed| - 1]).value, parsed[|parsed| - 1].value)
  {
  }

  lemma InitAgrees(parsed: seq<Option<MonStats>>)
    requires parsed != []
    ensures forall k :: 0 <= k < |parsed| - 1 ==> parsed[..|parsed| - 1][k] == parsed[k]
  {
  }

  /** Every mon read from the file has stamina 5 and the name it is filed
      under. */
  lemma MonsStamina(rows: seq<MonRow>)
    requires Table(Parsed(rows)).Some?
    ensures var t := Table(Parsed(rows)).value;
      forall n :: n in t.stats ==> t.stats[n].name == n && t.stats[n].stamina == 5
  {
    var p := Parsed(rows);
    var t := Table(p).value;
    TableOrder(p);
    forall n | n in t.stats
      ensures t.stats[n].stamina == 5
    {
      var k :| 0 <= k < |p| && p[k] == Some(t.stats[n]);
      assert ParseMon(rows[k]) == Some(t.stats[n]);
    }
  }

  /** The objects of a mon table are distinct. */
  predicate Distinct(mons: map<string, MonData>)
  {
    forall a, b :: a in mons && b in mons && a != b ==> mons[a] != mons[b]
  }

  /** The objects filed under the names mirror the table. */
  predicate Mirrors(order: seq<string>, mons: map<string, MonData>, t: MonTable)
    reads mons.Values
  {
    order == t.order && mons.Keys == t.stats.Keys
    && forall n :: n in mons ==> mons[n].Stats() == t.stats[n]
  }

  /** The state read_mons_csv keeps: objects mirroring the table, one per
      name, with no moves or abilities yet. */
  predicate Loaded(order: seq<string>, mons: map<string, MonData>, t: MonTable)
    reads mons.Values
  {
    Mirrors(order, mons, t) && Distinct(mons) && NoLists(mons)
  }

  /** No mon has a move or an ability yet. */
  predicate NoLists(mons: map<string, MonData>)
    reads mons.Values
  {
    forall n :: n in mons ==> mons[n].moves == [] && mons[n].abilities == []
  }

  /** The body of read_mons_csv for a well-formed record: a fresh MonData
      replaces the one filed under its name. */
  method AddMon(order: seq<string>, mons: map<string, MonData>, ghost t: MonTable, st: MonStats)
    returns (order': seq<string>, mons': map<string, MonData>)
    requires Loaded(order, mons, t)
    ensures Loaded(order', mons', Enter(t, st))
    ensures st.name in mons' && fresh(mons'[st.name])
    ensures forall n :: n in mons' && n != st.name ==> n in mons && mons'[n] == mons[n]
  {
    var mon := new MonData(st);
    order' := if st.name in mons then order else order + [st.name];
    mons' := mons[st.name := mon];
    MirrorsAdd(order, mons, t, st, mon);
    DistinctAdd(mons, st.name, mon);
    EmptyListsAdd(mons, st.name, mon);
  }

  lemma MirrorsAdd(order: seq<string>, mons: map<string, MonData>, t: MonTable, st: MonStats, mon: MonData)
    requires Mirrors(order, mons, t) && mon.Stats() == st
    ensures Mirrors(if st.name in mons then order else order + [st.name], mons[st.name := mon], Enter(t, st))
  {
  }

  lemma DistinctAdd(mons: map<string, MonData>, name: string, mon: MonData)
    requires Distinct(mons) && forall n :: n in mons ==> mons[n] != mon
    ensures Distinct(mons[name := mon])
  {
  }

  lemma EmptyListsAdd(mons: map<string, MonData>, name: string, mon: MonData)
    requires NoLists(mons) && mon.moves == [] && mon.abilities == []
    ensures NoLists(mons[name := mon])
  {
  }

  /** read_mons_csv: a fresh MonData per record, filed under its name, so a
      later record of a name replaces the earlier one. */
  method ReadMonsCsv(rows: seq<MonRow>) returns (r: Option<(seq<string>, map<string, MonData>)>)
    ensures r.None? <==> Table(Parsed(rows)).None?
    ensures r.Some? ==> Loaded(r.value.0, r.value.1, Table(Parsed(rows)).value)
    ensures r.Some? ==> forall n :: n in r.value.1 ==> fresh(r.value.1[n])
  {
    var order: seq<string> := [];
    var mons: map<string, MonData> := map[];
    ghost var parsed := Parsed(rows);
    ghost var t := MonTable([], map[]);
    for i := 0 to |rows|
      invariant Table(parsed[..i]) == Some(t)
      invariant Loaded(order, mons, t)
      invariant forall n :: n in mons ==> fresh(mons[n])
    {
      TableStep(parsed, i);
      var st := ParseMon(rows[i]);
      if st.None? {
        TableFailsAt(parsed, i);
        return None;
      }
      order, mons := AddMon(order, mons, t, st.value);
      t := Enter(t, st.value);
    }
    TableAll(parsed);
    r := Some((order, mons));
  }

  /** One record of the moves or abilities file: the Name and Mon columns. */
  datatype ListRow = ListRow(name: string, mon: string)

  /** A record with both fields stripped. */
  function StripRow(row: ListRow): ListRow
  {
    ListRow(Strip(row.name), Strip(row.mon))
  }

  /** The records of a file, each stripped. */
  function StripRows(rows: seq<ListRow>): (r: seq<ListRow>)
    ensures |r| == |rows|
  {
    if rows == [] then [] else StripRows(rows[..|rows| - 1]) + [StripRow(rows[|rows| - 1])]
  }

  lemma {:induction false} StripRowsAt(rows: seq<ListRow>, k: nat)
    requires k < |rows|
    ensures StripRows(rows)[k] == StripRow(rows[k])
  {
    if k < |rows| - 1 {
      StripRowsAt(rows[..|rows| - 1], k);
    }
  }

  /** What one stripped record attaches to the mon `n`: its name, when both
      fields are non-empty and the Mon field equals `n`. */
  function Contribution(entry: ListRow, n: string): (r: seq<string>)
    ensures r == [] || r == [entry.name]
  {
    if entry.name != "" && entry.mon != "" && entry.mon == n then [entry.name] else []
  }

  /** The names the first `count` stripped records attach to the mon `n`,
      in file order. */
  function Attached(entries: seq<ListRow>, count: nat, n: string): (r: seq<string>)
    requires count <= |entries|
  {
    if count == 0 then [] else Attached(entries, count - 1, n) + Contribution(entries[count - 1], n)
  }

  /** A record attaches its name to no mon unless its Mon field names one. */
  lemma {:induction false} AttachedToOwner(entries: seq<ListRow>, count: nat, n: string)
    requires count <= |entries|
    requires forall k :: 0 <= k < count ==> entries[k].mon != n
    ensures Attached(entries, count, n) == []
  {
    if count > 0 {
      AttachedToOwner(entries, count - 1, n);
    }
  }

  /** The effect of record i of the stripped moves file: the mon named by
      its Mon field, if both fields are non-empty and it is known, gets the
      move name appended. Given that each mon's list is `before` plus what
      records 0..i-1 attach to it, afterwards it is `before` plus what
      records 0..i attach. */
  method AttachMove(mons: map<string, MonData>, entry: ListRow,
                    ghost before: map<string, seq<string>>, ghost entries: seq<ListRow>, ghost i: nat)
    requires Distinct(mons) && i < |entries| && entries[i] == entry
    requires forall n :: n in mons ==> n in before && mons[n].moves == before[n] + Attached(entries, i, n)
    modifies mons.Values
    ensures forall n :: n in mons ==> mons[n].moves == before[n] + Attached(entries, i + 1, n)
    ensures forall n :: n in mons ==> mons[n].abilities == old(mons[n].abilities)
  {
    if entry.name != "" && entry.mon != "" && entry.mon in mons {
      var mon := mons[entry.mon];
      mon.moves := mon.moves + [entry.name];
    }
  }

  /** read_moves_csv: every known mon's move list grows by the moves the
      file attaches to it; nothing else changes. */
  method ReadMovesCsv(rows: seq<ListRow>, mons: map<string, MonData>)
    requires Distinct(mons)
    modifies mons.Values
    ensures forall n :: n in mons ==> mons[n].moves == old(mons[n].moves) + Attached(StripRows(rows), |rows|, n)
    ensures forall n :: n in mons ==> mons[n].abilities == old(mons[n].abilities)
  {
    ghost var entries := StripRows(rows);
    ghost var before := map n | n in mons :: mons[n].moves;
    for i := 0 to |rows|
      invariant forall n :: n in mons ==> n in before && before[n] == old(mons[n].moves)
      invariant forall n :: n in mons ==> mons[n].moves == before[n] + Attached(entries, i, n)
      invariant forall n :: n in mons ==> mons[n].abilities == old(mons[n].abilities)
    {
      StripRowsAt(rows, i);
      AttachMove(mons, StripRow(rows[i]), before, entries, i);
    }
  }

  /** The effect of record i of the stripped abilities file. */
  method AttachAbility(mons: map<string, MonData>, entry: ListRow,
                       ghost before: map<string, seq<string>>, ghost entries: seq<ListRow>, ghost i: nat)
    requires Distinct(mons) && i < |entries| && entries[i] == entry
    requires forall n :: n in mons ==> n in before && mons[n].abilities == before[n] + Attached(entries, i, n)
    modifies mons.Values
    ensures forall n :: n in mons ==> mons[n].abilities == before[n] + Attached(entries, i + 1, n)
    ensures forall n :: n in mons ==> mons[n].moves == old(mons[n].moves)
  {
    if entry.name != "" && entry.mon != "" && entry.mon in mons {
      var mon := mons[entry.mon];
      mon.abilities := mon.abilities + [entry.name];
    }
  }

  /** read_abilities_csv: the same for the ability lists. */
  method ReadAbilitiesCsv(rows: seq<ListRow>, mons: map<string, MonData>)
    requires Distinct(mons)
    modifies mons.Values
    ensures forall n :: n in mons ==> mons[n].abilities == old(mons[n].abilities) + Attached(StripRows(rows), |rows|, n)
    ensures forall n :: n in mons ==> mons[n].moves == old(mons[n].moves)
  {
    ghost var entries := StripRows(rows);
    ghost var before := map n | n in mons :: mons[n].abilities;
    for i := 0 to |rows|
      invariant forall n :: n in mons ==> n in before && before[n] == old(mons[n].abilities)
      invariant forall n :: n in mons ==> mons[n].abilities == before[n] + Attached(entries, i, n)
      invariant forall n :: n in mons ==> mons[n].moves == old(mons[n].moves)
    {
      StripRowsAt(rows, i);
      AttachAbility(mons, StripRow(rows[i]), before, entries, i);
    }
  }

  // ---------------------------------------------------------------------
  // Contracts of a mon

  /** A contract to deploy: the move or ability name it was made for, its
      source path, its constructor dependencies and its variable name. */
  datatype ContractInfo = ContractInfo(name: string, contractPath: string, dependencies: seq<string>, variableName: string)

  /** A dict of contracts, keyed by contract name, with its key order. */
  datatype Contracts = Contracts(order: seq<string>, entries: map<string, ContractInfo>)

  const NoContracts := Contracts([], map[])

  /** The source path of a contract, joined with `/`. */
  function ContractPath(basePath: string, monDir: string, contractName: string): string
  {
    basePath + "/src/mons/" + monDir + "/" + contractName + ".sol"
  }

  /** `if contract_name not in contracts: contracts[contract_name] = ...`:
      the contract of `name` is added unless its contract name is already a
      key. `dependencies` stands for the scan of the contract's source
      file. */
  function AddContract(c: Contracts, name: string, basePath: string, monDir: string,
                       dependencies: string -> seq<string>): (r: Contracts)
    ensures ContractName(name) in r.entries
    ensures r.entries.Keys == c.entries.Keys + {ContractName(name)}
    ensures forall cn :: cn in c.entries ==> r.entries[cn] == c.entries[cn]
  {
    var contractName := ContractName(name);
    if contractName in c.entries then c
    else
      var path := ContractPath(basePath, monDir, contractName);
      Contracts(c.order + [contractName],
                c.entries[contractName := ContractInfo(name, path, dependencies(path), VariableName(name))])
  }

  /** The contracts of the names, added in turn. */
  function Collect(c: Contracts, names: seq<string>, basePath: string, monDir: string,
                   dependencies: string -> seq<string>): Contracts
  {
    if names == [] then c
    else AddContract(Collect(c, names[..|names| - 1], basePath, monDir, dependencies),
                     names[|names| - 1], basePath, monDir, dependencies)
  }

  lemma CollectStep(names: seq<string>, k: nat, basePath: string, monDir: string, dependencies: string -> seq<string>)
    requires k < |names|
    ensures Collect(NoContracts, names[..k + 1], basePath, monDir, dependencies)
      == AddContract(Collect(NoContracts, names[..k], basePath, monDir, dependencies), names[k], basePath, monDir, dependencies)
  {
    assert names[..k + 1][..k] == names[..k];
  }

  /** get_contracts_for_mon: the move contracts first, then the ability
      contracts, each contract name once. */
  method GetContractsForMon(mon: MonData, basePath: string, dependencies: string -> seq<string>)
    returns (contracts: Contracts)
    ensures contracts == Collect(NoContracts, mon.moves + mon.abilities, basePath, MonDirectoryName(mon.name), dependencies)
  {
    var monDir := MonDirectoryName(mon.name);
    contracts := NoContracts;
    var names := mon.moves + mon.abilities;
    for k := 0 to |names|
      invariant contracts == Collect(NoContracts, names[..k], basePath, monDir, dependencies)
    {
      CollectStep(names, k, basePath, monDir, dependencies);
      var contractName := ContractName(names[k]);
      var contractPath := ContractPath(basePath, monDir, contractName);
      if contractName !in contracts.entries {
        var deps := dependencies(contractPath);
        contracts := Contracts(contracts.order + [contractName],
          contracts.entries[contractName := ContractInfo(names[k], contractPath, deps, VariableName(names[k]))]);
      }
    }
    assert names[..|names|] == names;
  }

  /** The contract names of a list of names. */
  function ContractNames(names: seq<string>): set<string>
  {
    if names == [] then {} else ContractNames(names[..|names| - 1]) + {ContractName(names[|names| - 1])}
  }

  lemma {:induction false} ContractNamesMembers(names: seq<string>)
    ensures forall cn :: cn in ContractNames(names) <==> exists k :: 0 <= k < |names| && ContractName(names[k]) == cn
    decreases |names|
  {
    if names != [] {
      var init := names[..|names| - 1];
      ContractNamesMembers(init);
      assert forall k :: 0 <= k < |init| ==> init[k] == names[k];
    }
  }

  /** The keys are the contract names of the names, listed once each in
      order of first appearance. */
  lemma {:induction false} CollectKeys(names: seq<string>, basePath: string, monDir: string, dependencies: string -> seq<string>)
    ensures var c := Collect(NoContracts, names, basePath, monDir, dependencies);
      OrderOf(c.order, c.entries) && c.entries.Keys == ContractNames(names)
    decreases |names|
  {
    if names != [] {
      CollectKeys(names[..|names| - 1], basePath, monDir, dependencies);
    }
  }

  /** The first name with a given contract name wins: its entry is built
      from that name and the path of its contract. */
  lemma {:induction false} CollectFirstWins(names: seq<string>, basePath: string, monDir: string,
                                          dependencies: string -> seq<string>, k: nat)
    requires k < |names|
    requires forall j :: 0 <= j < k ==> ContractName(names[j]) != ContractName(names[k])
    ensures var c := Collect(NoContracts, names, basePath, monDir, dependencies);
      var path := ContractPath(basePath, monDir, ContractName(names[k]));
      && ContractName(names[k]) in c.entries
      && c.entries[ContractName(names[k])] == ContractInfo(names[k], path, dependencies(path), VariableName(names[k]))
    decreases |names|
  {
    var init := names[..|names| - 1];
    if k < |names| - 1 {
      assert forall j :: 0 <= j <= k ==> init[j] == names[j];
      CollectFirstWins(init, basePath, monDir, dependencies, k);
    } else {
      CollectKeys(init, basePath, monDir, dependencies);
      ContractNamesMembers(init);
      assert forall j :: 0 <= j < |init| ==> init[j] == names[j];
      assert ContractName(names[k]) !in Collect(NoContracts, init, basePath, monDir, dependencies).entries;
    }
  }

  // ---------------------------------------------------------------------
  // Order of deployment and the move and ability arrays

  /** The values of the table in dict order. */
  function Values(order: seq<string>, stats: map<string, MonStats>): (r: seq<MonStats>)
    requires forall n :: n in order ==> n in stats
    ensures |r| == |order| && forall i :: 0 <= i < |order| ==> r[i] == stats[order[i]]
  {
    if order == [] then [] else [stats[order[0]]] + Values(order[1..], stats)
  }

  function IdKey(): MonStats -> Key
  {
    (m: MonStats) => Num(m.monId as real)
  }

  /** `sorted(mons.values(), key=lambda m: m.mon_id)`. */
  function DeployOrder(mons: seq<MonStats>): seq<MonStats>
  {
    SortByKey(mons, IdKey(), true)
  }

  /** The mons are deployed in ascending mon_id order, each exactly as
      often as it is in the table, and mons with equal ids in table order. */
  lemma DeployOrderAscending(mons: seq<MonStats>)
    ensures var r := DeployOrder(mons);
      && multiset(r) == multiset(mons)
      && (forall i, j :: 0 <= i < j < |r| ==> r[i].monId <= r[j].monId)
      && forall k :: WithKey(r, IdKey(), k) == WithKey(mons, IdKey(), k)
  {
    var r := DeployOrder(mons);
    SortByKeyCorrect(mons, IdKey(), true);
    forall i, j | 0 <= i < j < |r|
      ensures r[i].monId <= r[j].monId
    {
      assert !Precedes(IdKey()(r[j]), IdKey()(r[i]), true);
    }
  }

  /** The deploy function name of a mon. */
  function DeployFunctionName(monName: string): string
  {
    "deploy" + RemoveSpaces(monName)
  }

  /** The calls of run(): one call per mon, in deployment order. */
  method DeployCalls(mons: seq<MonStats>) returns (lines: seq<string>)
    ensures |lines| == |DeployOrder(mons)| == |mons|
    ensures forall i :: 0 <= i < |lines| ==>
      lines[i] == "        " + DeployFunctionName(DeployOrder(mons)[i].name) + "(registry);"
  {
    var sorted := DeployOrder(mons);
    SortByKeyLength(mons, IdKey(), true);
    lines := [];
    for i := 0 to |sorted|
      invariant |lines| == i
      invariant forall i' :: 0 <= i' < i ==> lines[i'] == "        " + DeployFunctionName(sorted[i'].name) + "(registry);"
    {
      lines := lines + ["        " + DeployFunctionName(sorted[i].name) + "(registry);"];
    }
  }

  /** The move array and the ability array of a deploy function. */
  datatype ArrayKind = MoveArray | AbilityArray

  function ElementType(kind: ArrayKind): string
  {
    if kind == MoveArray then "IMoveSet" else "IAbility"
  }

  function ArrayName(kind: ArrayKind): string
  {
    if kind == MoveArray then "moves" else "abilities"
  }

  /** The declaration of an array of n elements. */
  function Declaration(kind: ArrayKind, n: nat): string
  {
    "        " + ElementType(kind) + "[] memory " + ArrayName(kind) + " = new " + ElementType(kind)
    + "[](" + NatToString(n) + ");"
  }

  /** The assignment of element i. */
  function Assignment(kind: ArrayKind, i: nat, variableName: string): string
  {
    "        " + ArrayName(kind) + "[" + NatToString(i) + "] = " + ElementType(kind)
    + "(address(" + variableName + "));"
  }

  /** The assignments for the first `count` names, skipping names whose
      contract is not in the dict; a name keeps its own index. */
  function Assignments(kind: ArrayKind, names: seq<string>, count: nat, contracts: Contracts): seq<string>
    requires count <= |names|
  {
    if count == 0 then []
    else
      var cn := ContractName(names[count - 1]);
      Assignments(kind, names, count - 1, contracts)
      + (if cn in contracts.entries then [Assignment(kind, count - 1, contracts.entries[cn].variableName)] else [])
  }

  /** The assignment lines for the names whose contract is known, element
      i for name i. */
  method AssignmentLines(kind: ArrayKind, names: seq<string>, contracts: Contracts) returns (lines: seq<string>)
    ensures lines == Assignments(kind, names, |names|, contracts)
  {
    lines := [];
    for i := 0 to |names|
      invariant lines == Assignments(kind, names, i, contracts)
    {
      var contractName := ContractName(names[i]);
      if contractName in contracts.entries {
        var variableName := contracts.entries[contractName].variableName;
        lines := lines + [Assignment(kind, i, variableName)];
      }
    }
  }

  /** The array part of generate_deploy_function_for_mon: the declaration
      sized by the number of names and then one assignment per name whose
      contract is known. */
  method ArrayLines(kind: ArrayKind, names: seq<string>, contracts: Contracts) returns (lines: seq<string>)
    ensures lines == [Declaration(kind, |names|)] + Assignments(kind, names, |names|, contracts)
  {
    if |names| > 0 {
      var assignments := AssignmentLines(kind, names, contracts);
      lines := [Declaration(kind, |names|)] + assignments;
    } else {
      lines := [Declaration(kind, 0)];
    }
  }

  /** Line k of `a` assigns element k the contract of name k, for every
      k < count. */
  predicate AssignedInOrder(kind: ArrayKind, names: seq<string>, count: nat, contracts: Contracts, a: seq<string>)
    requires count <= |names|
  {
    |a| == count && forall k :: 0 <= k < count ==>
      ContractName(names[k]) in contracts.entries
      && a[k] == Assignment(kind, k, contracts.entries[ContractName(names[k])].variableName)
  }

  /** When every name's contract is in the dict, element i is assigned the
      contract of name i, in order, so each array is filled completely. */
  lemma {:induction false} AssignmentsComplete(kind: ArrayKind, names: seq<string>, count: nat, contracts: Contracts)
    requires count <= |names|
    requires forall k :: 0 <= k < count ==> ContractName(names[k]) in contracts.entries
    ensures AssignedInOrder(kind, names, count, contracts, Assignments(kind, names, count, contracts))
  {
    if count > 0 {
      AssignmentsComplete(kind, names, count - 1, contracts);
      AssignedSnoc(kind, names, count - 1, contracts, Assignments(kind, names, count - 1, contracts));
    }
  }

  lemma AssignedSnoc(kind: ArrayKind, names: seq<string>, count: nat, contracts: Contracts, a: seq<string>)
    requires count < |names| && ContractName(names[count]) in contracts.entries
    requires AssignedInOrder(kind, names, count, contracts, a)
    ensures AssignedInOrder(kind, names, count + 1, contracts,
      a + [Assignment(kind, count, contracts.entries[ContractName(names[count])].variableName)])
  {
  }

  /** The contracts collected for a mon know every move and ability of it,
      so both arrays are filled completely. */
  lemma MonArraysComplete(moves: seq<string>, abilities: seq<string>, basePath: string, monDir: string,
                           dependencies: string -> seq<string>)
    ensures var c := Collect(NoContracts, moves + abilities, basePath, monDir, dependencies);
      |Assignments(MoveArray, moves, |moves|, c)| == |moves|
      && |Assignments(AbilityArray, abilities, |abilities|, c)| == |abilities|
  {
    var names := moves + abilities;
    var c := Collect(NoContracts, names, basePath, monDir, dependencies);
    CollectKeys(names, basePath, monDir, dependencies);
    ContractNamesMembers(names);
    forall k | 0 <= k < |moves|
      ensures ContractName(moves[k]) in c.entries
    {
      assert names[k] == moves[k];
    }
    forall k | 0 <= k < |abilities|
      ensures ContractName(abilities[k]) in c.entries
    {
      assert names[|moves| + k] == abilities[k];
    }
    ArrayFilled(MoveArray, moves, c);
    ArrayFilled(AbilityArray, abilities, c);
  }

  lemma ArrayFilled(kind: ArrayKind, names: seq<string>, c: Contracts)
    requires forall k :: 0 <= k < |names| ==> ContractName(names[k]) in c.entries
    ensures |Assignments(kind, names, |names|, c)| == |names|
  {
    AssignmentsComplete(kind, names, |names|, c);
  }
}
