/** The matchup analysis page: the exhaustive move list against one
    defender, the attacker x defender matrix of best moves, the header-click
    sort state of both tables, the two row orders of the matrix and the
    colour scaling of its cells. */
module Matchup {
  import opened Text
  import opened Sorting
  import opened TypeGraph
  import opened Damage
  import opened Heatmap

  /** Each attacker's own moves can be evaluated against `defender`; moves
      of monsters that are not attackers are never looked at. */
  predicate Evaluable(chart: Chart, attackers: seq<Monster>, moves: seq<Move>, defender: Monster)
  {
    forall a, m :: a in attackers && m in MovesFor(moves, a.name) ==> Computable(chart, m, defender)
  }

  /** The moves of `attacker` can be evaluated against every monster of the
      table. */
  predicate ReadyFor(chart: Chart, data: seq<Monster>, moves: seq<Move>, attacker: Monster)
  {
    forall d, m :: d in data && m in MovesFor(moves, attacker.name) ==> Computable(chart, m, d)
  }

  /** Every monster's own moves can be evaluated against every monster of
      the table. */
  predicate Ready(chart: Chart, data: seq<Monster>, moves: seq<Move>)
  {
    forall a :: a in data ==> ReadyFor(chart, data, moves, a)
  }

  // ---------------------------------------------------------------------
  // The move list against one defender (calculateMonsterAnalysis)

  /** A damage record tagged with the name of the monster that uses it. */
  datatype Hit = Hit(record: DamageRecord, attacker: string)

  /** The hits of `attacker`'s moves `ms` on `defender`, in move order;
      non-damaging moves leave no entry. */
  function Hits(chart: Chart, ms: seq<Move>, attacker: Monster, defender: Monster): (r: seq<Hit>)
    requires forall m :: m in ms ==> Computable(chart, m, defender)
    ensures |r| <= |ms|
  {
    if ms == [] then []
    else
      var last := ms[|ms| - 1];
      var d := MoveDamage(chart, last, attacker, defender);
      Hits(chart, ms[..|ms| - 1], attacker, defender)
      + (if d.Some? then [Hit(d.value, attacker.name)] else [])
  }

  /** The hits of every attacker of `attackers`, in table order. */
  function Analysis(chart: Chart, attackers: seq<Monster>, moves: seq<Move>, defender: Monster): seq<Hit>
    requires Evaluable(chart, attackers, moves, defender)
  {
    if attackers == [] then []
    else
      var last := attackers[|attackers| - 1];
      Analysis(chart, attackers[..|attackers| - 1], moves, defender)
      + Hits(chart, MovesFor(moves, last.name), last, defender)
  }

  /** The moves of one attacker against the defender, as the inner loop of
      calculateMonsterAnalysis pushes them. */
  method AttackerHits(chart: Chart, attackerMoves: seq<Move>, attacker: Monster, defender: Monster)
    returns (hits: seq<Hit>)
    requires forall m :: m in attackerMoves ==> Computable(chart, m, defender)
    ensures hits == Hits(chart, attackerMoves, attacker, defender)
  {
    hits := [];
    for k := 0 to |attackerMoves|
      invariant hits == Hits(chart, attackerMoves[..k], attacker, defender)
    {
      var moveDamage := MoveDamage(chart, attackerMoves[k], attacker, defender);
      if moveDamage.Some? {
        hits := hits + [Hit(moveDamage.value, attacker.name)];
      }
      assert attackerMoves[..k + 1][..k] == attackerMoves[..k];
    }
    assert attackerMoves[..|attackerMoves|] == attackerMoves;
  }

  /** calculateMonsterAnalysis for the monster at `monsterIndex`: every
      attacker in table order, each of its moves in file order. */
  method CalculateMonsterAnalysis(chart: Chart, data: seq<Monster>, moves: seq<Move>, monsterIndex: nat)
    returns (moveDamage: seq<Hit>)
    requires monsterIndex < |data|
    requires Evaluable(chart, data, moves, data[monsterIndex])
    ensures moveDamage == Analysis(chart, data, moves, data[monsterIndex])
  {
    var defender := data[monsterIndex];
    moveDamage := [];
    for i := 0 to |data|
      invariant moveDamage == Analysis(chart, data[..i], moves, defender)
    {
      var attacker := data[i];
      var attackerMoves := MovesFor(moves, attacker.name);
      var hits := AttackerHits(chart, attackerMoves, attacker, defender);
      moveDamage := moveDamage + hits;
      assert data[..i + 1][..i] == data[..i];
    }
    assert data[..|data|] == data;
  }

  /** A hit is listed exactly when one of the attacker's moves is damaging
      and the hit is that move's record. */
  lemma {:induction false} HitsMember(chart: Chart, ms: seq<Move>, attacker: Monster, defender: Monster, h: Hit)
    requires forall m :: m in ms ==> Computable(chart, m, defender)
    ensures h in Hits(chart, ms, attacker, defender) <==>
      exists m :: m in ms && Damaging(m) && h == Hit(MoveDamage(chart, m, attacker, defender).value, attacker.name)
    decreases |ms|
  {
    if ms != [] {
      var init, last := ms[..|ms| - 1], ms[|ms| - 1];
      assert ms == init + [last];
      HitsMember(chart, init, attacker, defender, h);
    }
  }

  /** The analysis lists exactly the records of the damaging moves of every
      monster of the table against the defender, tagged with the user. */
  lemma {:induction false} AnalysisMember(chart: Chart, attackers: seq<Monster>, moves: seq<Move>, defender: Monster, h: Hit)
    requires Evaluable(chart, attackers, moves, defender)
    ensures h in Analysis(chart, attackers, moves, defender) <==>
      exists a, m :: a in attackers && m in moves && m.mon == a.name && Damaging(m)
        && h == Hit(MoveDamage(chart, m, a, defender).value, a.name)
    decreases |attackers|
  {
    if attackers != [] {
      var init, last := attackers[..|attackers| - 1], attackers[|attackers| - 1];
      assert attackers == init + [last];
      AnalysisMember(chart, init, moves, defender, h);
      HitsMember(chart, MovesFor(moves, last.name), last, defender, h);
    }
  }

  // ---------------------------------------------------------------------
  // The best-move matrix (calculateMaxDamage)

  /** The running best of the move loop: %HP, move name, class, type and
      type multiplier. */
  datatype Best = Best(percentHp: real, moveName: string, moveClass: string, moveType: string, typeMultiplier: real)

  /** The starting values of the loop, kept when no move does damage. */
  const NoMove: Best := Best(0.0, "", "", "", 0.0)

  /** The best the loop would record for `move` alone. */
  function Chosen(chart: Chart, move: Move, attacker: Monster, defender: Monster): Best
    requires Damaging(move) && Computable(chart, move, defender)
  {
    var d := MoveDamage(chart, move, attacker, defender).value;
    Best(d.percentHp, move.name, move.moveClass, move.moveType, d.typeMultiplier)
  }

  /** The %HP of a damaging move. */
  function Percent(chart: Chart, move: Move, attacker: Monster, defender: Monster): real
    requires Damaging(move) && Computable(chart, move, defender)
  {
    MoveDamage(chart, move, attacker, defender).value.percentHp
  }

  /** One step of the loop: a move replaces the best only when it is
      damaging and strictly better. */
  function Consider(chart: Chart, best: Best, move: Move, attacker: Monster, defender: Monster): (r: Best)
    requires Computable(chart, move, defender)
    ensures r == best || (Damaging(move) && r == Chosen(chart, move, attacker, defender) && r.percentHp > best.percentHp)
  {
    var d := MoveDamage(chart, move, attacker, defender);
    if d.Some? && d.value.percentHp > best.percentHp then
      Best(d.value.percentHp, move.name, move.moveClass, move.moveType, d.value.typeMultiplier)
    else best
  }

  /** The loop over the attacker's moves, from NoMove. */
  function BestMove(chart: Chart, ms: seq<Move>, attacker: Monster, defender: Monster): Best
    requires forall m :: m in ms ==> Computable(chart, m, defender)
  {
    if ms == [] then NoMove
    else
      var init := ms[..|ms| - 1];
      assert forall m :: m in init ==> m in ms;
      Consider(chart, BestMove(chart, init, attacker, defender), ms[|ms| - 1], attacker, defender)
  }

  /** The best is at least 0 and at least the %HP of every damaging move;
      it is NoMove or a strictly positive choice. */
  lemma {:induction false} BestMoveBound(chart: Chart, ms: seq<Move>, attacker: Monster, defender: Monster)
    requires forall m :: m in ms ==> Computable(chart, m, defender)
    ensures var b := BestMove(chart, ms, attacker, defender);
      && b.percentHp >= 0.0
      && (b == NoMove || b.percentHp > 0.0)
      && forall k :: 0 <= k < |ms| && Damaging(ms[k]) ==> Percent(chart, ms[k], attacker, defender) <= b.percentHp
    decreases |ms|
  {
    if ms != [] {
      var init := ms[..|ms| - 1];
      assert forall m :: m in init ==> m in ms;
      BestMoveBound(chart, init, attacker, defender);
      BoundStep(chart, ms, attacker, defender);
    }
  }

  /** The statement of BestMoveBound for a best `b` of moves `ms`. */
  predicate Bounds(chart: Chart, ms: seq<Move>, attacker: Monster, defender: Monster, b: Best)
    requires forall m :: m in ms ==> Computable(chart, m, defender)
  {
    && b.percentHp >= 0.0
    && (b == NoMove || b.percentHp > 0.0)
    && forall k :: 0 <= k < |ms| && Damaging(ms[k]) ==> Percent(chart, ms[k], attacker, defender) <= b.percentHp
  }

  lemma BoundStep(chart: Chart, ms: seq<Move>, attacker: Monster, defender: Monster)
    requires ms != [] && forall m :: m in ms ==> Computable(chart, m, defender)
    requires forall m :: m in ms[..|ms| - 1] ==> Computable(chart, m, defender)
    requires Bounds(chart, ms[..|ms| - 1], attacker, defender, BestMove(chart, ms[..|ms| - 1], attacker, defender))
    ensures Bounds(chart, ms, attacker, defender, BestMove(chart, ms, attacker, defender))
  {
    var init, last := ms[..|ms| - 1], ms[|ms| - 1];
    var b' := BestMove(chart, init, attacker, defender);
    var b := Consider(chart, b', last, attacker, defender);
    assert b == BestMove(chart, ms, attacker, defender);
    assert b'.percentHp <= b.percentHp;
    if Damaging(last) {
      ConsiderBound(chart, b', last, attacker, defender);
    }
    PrefixBound(chart, ms, init, attacker, defender, b'.percentHp, b.percentHp);
  }

  /** A bound on the damaging moves before the last one, raised to `hi`,
      bounds them in `ms`; the last move is bounded by `hi` directly. */
  lemma PrefixBound(chart: Chart, ms: seq<Move>, init: seq<Move>, attacker: Monster, defender: Monster, lo: real, hi: real)
    requires ms != [] && init == ms[..|ms| - 1]
    requires forall m :: m in ms ==> Computable(chart, m, defender)
    requires forall m :: m in init ==> Computable(chart, m, defender)
    requires forall k :: 0 <= k < |init| && Damaging(init[k]) ==> Percent(chart, init[k], attacker, defender) <= lo
    requires lo <= hi
    requires Damaging(ms[|ms| - 1]) ==> Percent(chart, ms[|ms| - 1], attacker, defender) <= hi
    ensures forall k :: 0 <= k < |ms| && Damaging(ms[k]) ==> Percent(chart, ms[k], attacker, defender) <= hi
  {
    forall k | 0 <= k < |ms| && Damaging(ms[k])
      ensures Percent(chart, ms[k], attacker, defender) <= hi
    {
      if k < |ms| - 1 {
        assert init[k] == ms[k];
      }
    }
  }

  /** The best after a damaging move is at least that move's %HP. */
  lemma ConsiderBound(chart: Chart, best: Best, move: Move, attacker: Monster, defender: Monster)
    requires Computable(chart, move, defender) && Damaging(move)
    ensures Percent(chart, move, attacker, defender) <= Consider(chart, best, move, attacker, defender).percentHp
  {
  }

  /** A best other than NoMove is the choice of one damaging move that
      every earlier move falls strictly short of: the first maximum wins. */
  lemma {:induction false} BestMoveWitness(chart: Chart, ms: seq<Move>, attacker: Monster, defender: Monster)
    requires forall m :: m in ms ==> Computable(chart, m, defender)
    ensures var b := BestMove(chart, ms, attacker, defender);
      b != NoMove ==>
        exists k :: (0 <= k < |ms| && Damaging(ms[k]) && b == Chosen(chart, ms[k], attacker, defender)
          && forall j :: 0 <= j < k && Damaging(ms[j]) ==> Percent(chart, ms[j], attacker, defender) < b.percentHp)
    decreases |ms|
  {
    if ms != [] {
      var init, last := ms[..|ms| - 1], ms[|ms| - 1];
      assert forall m :: m in init ==> m in ms;
      assert forall k :: 0 <= k < |init| ==> init[k] == ms[k];
      var b' := BestMove(chart, init, attacker, defender);
      var b := BestMove(chart, ms, attacker, defender);
      if b == b' {
        BestMoveWitness(chart, init, attacker, defender);
      } else {
        BestMoveBound(chart, init, attacker, defender);
        assert Damaging(ms[|ms| - 1]) && b == Chosen(chart, ms[|ms| - 1], attacker, defender);
      }
    }
  }

  /** The cell keeps NoMove exactly when no move of the attacker does
      positive damage to the defender. */
  lemma {:induction false} NoMoveIffNoDamage(chart: Chart, ms: seq<Move>, attacker: Monster, defender: Monster)
    requires forall m :: m in ms ==> Computable(chart, m, defender)
    ensures BestMove(chart, ms, attacker, defender) == NoMove <==>
      forall k :: 0 <= k < |ms| && Damaging(ms[k]) ==> Percent(chart, ms[k], attacker, defender) <= 0.0
  {
    BestMoveBound(chart, ms, attacker, defender);
    BestMoveWitness(chart, ms, attacker, defender);
  }

  /** One cell of the matrix. */
  datatype MaxDamage = MaxDamage(
    defenderName: string, percentHp: real, source: string,
    moveType: string, moveClass: string, typeMultiplier: real)

  /** One row of the matrix: the attacker's name and a cell per defender. */
  datatype AttackerRow = AttackerRow(name: string, damages: seq<MaxDamage>)

  /** The cell built from the loop's final values; the source reads
      "name (class)". */
  function CellOf(defenderName: string, b: Best): (c: MaxDamage)
    ensures c.defenderName == defenderName && c.percentHp == b.percentHp
    ensures c.moveType == b.moveType && c.moveClass == b.moveClass && c.typeMultiplier == b.typeMultiplier
    ensures c.source == b.moveName + " (" + b.moveClass + ")"
    ensures b == NoMove ==> c == MaxDamage(defenderName, 0.0, " ()", "", "", 0.0)
  {
    MaxDamage(defenderName, b.percentHp, b.moveName + " (" + b.moveClass + ")", b.moveType, b.moveClass, b.typeMultiplier)
  }

  /** A cell is the empty one (0 %HP, multiplier 0, no type or class,
      source " ()") exactly when none of the attacker's moves does positive
      damage to the defender. */
  lemma EmptyCellIffNoDamage(chart: Chart, ms: seq<Move>, attacker: Monster, defender: Monster)
    requires forall m :: m in ms ==> Computable(chart, m, defender)
    ensures CellOf(defender.name, BestMove(chart, ms, attacker, defender)) == MaxDamage(defender.name, 0.0, " ()", "", "", 0.0)
      <==> forall k :: 0 <= k < |ms| && Damaging(ms[k]) ==> Percent(chart, ms[k], attacker, defender) <= 0.0
  {
    BestMoveBound(chart, ms, attacker, defender);
    NoMoveIffNoDamage(chart, ms, attacker, defender);
  }

  /** `row` is the matrix row of `attacker`: one cell per monster of the
      table, in table order, the attacker itself included. */
  ghost predicate RowFor(chart: Chart, data: seq<Monster>, moves: seq<Move>, attacker: Monster, row: AttackerRow)
    requires ReadyFor(chart, data, moves, attacker)
  {
    && row.name == attacker.name
    && |row.damages| == |data|
    && forall j :: 0 <= j < |data| ==>
         row.damages[j] == CellOf(data[j].name, BestMove(chart, MovesFor(moves, attacker.name), attacker, data[j]))
  }

  /** The best move of one attacker against one defender, as the innermost
      loop of calculateMaxDamage finds it. */
  method BestAgainst(chart: Chart, attackerMoves: seq<Move>, attacker: Monster, defender: Monster)
    returns (cell: MaxDamage)
    requires forall m :: m in attackerMoves ==> Computable(chart, m, defender)
    ensures cell == CellOf(defender.name, BestMove(chart, attackerMoves, attacker, defender))
  {
    var maxMoveDamage, maxMoveName, maxMoveClass, maxMoveType, maxTypeMultiplier := 0.0, "", "", "", 0.0;
    for k := 0 to |attackerMoves|
      invariant Best(maxMoveDamage, maxMoveName, maxMoveClass, maxMoveType, maxTypeMultiplier)
        == BestMove(chart, attackerMoves[..k], attacker, defender)
    {
      var move := attackerMoves[k];
      var moveDamage := MoveDamage(chart, move, attacker, defender);
      if moveDamage.Some? && moveDamage.value.percentHp > maxMoveDamage {
        maxMoveDamage := moveDamage.value.percentHp;
        maxMoveName := move.name;
        maxMoveClass := move.moveClass;
        maxMoveType := move.moveType;
        maxTypeMultiplier := moveDamage.value.typeMultiplier;
      }
      assert attackerMoves[..k + 1][..k] == attackerMoves[..k];
    }
    assert attackerMoves[..|attackerMoves|] == attackerMoves;
    var damageSource := maxMoveName + " (" + maxMoveClass + ")";
    cell := MaxDamage(defender.name, maxMoveDamage, damageSource, maxMoveType, maxMoveClass, maxTypeMultiplier);
  }

  /** The row of one attacker, as the middle loop of calculateMaxDamage
      builds it. */
  method AttackerMatchups(chart: Chart, data: seq<Monster>, moves: seq<Move>, attacker: Monster)
    returns (row: AttackerRow)
    requires ReadyFor(chart, data, moves, attacker)
    ensures RowFor(chart, data, moves, attacker, row)
  {
    var damages: seq<MaxDamage> := [];
    for j := 0 to |data|
      invariant |damages| == j
      invariant forall j' :: 0 <= j' < j ==>
        damages[j'] == CellOf(data[j'].name, BestMove(chart, MovesFor(moves, attacker.name), attacker, data[j']))
    {
      var defender := data[j];
      var attackerMoves := MovesFor(moves, attacker.name);
      var cell := BestAgainst(chart, attackerMoves, attacker, defender);
      damages := damages + [cell];
    }
    row := AttackerRow(attacker.name, damages);
  }

  /** calculateMaxDamage: one row per monster and one cell per monster,
      both in table order. */
  method CalculateMaxDamage(chart: Chart, data: seq<Monster>, moves: seq<Move>)
    returns (maxDamageData: seq<AttackerRow>)
    requires Ready(chart, data, moves)
    ensures |maxDamageData| == |data|
    ensures forall i :: 0 <= i < |data| ==> RowFor(chart, data, moves, data[i], maxDamageData[i])
  {
    maxDamageData := [];
    for i := 0 to |data|
      invariant |maxDamageData| == i
      invariant forall i' :: 0 <= i' < i ==> RowFor(chart, data, moves, data[i'], maxDamageData[i'])
    {
      var attackerData := AttackerMatchups(chart, data, moves, data[i]);
      maxDamageData := maxDamageData + [attackerData];
    }
  }

  // ---------------------------------------------------------------------
  // Sort state of the two tables

  /** The sort state of one table: the sorted column (none at first) and
      whether it is descending. */
  class SortState<C(==)> {
    var column: Option<C>
    var descending: bool

    constructor ()
      ensures column == None && !descending
    {
      column := None;
      descending := false;
    }

    /** sortMaxDamageTable, and the direction logic of sortMoveDamageTable
        when the toggle is not skipped. */
    method Click(c: C)
      modifies this
      ensures (column, descending) == Toggle(old(column), old(descending), c)
    {
      if column == Some(c) {
        descending := !descending;
      } else {
        column := Some(c);
        descending := true;
      }
    }

    /** The state the analysis sets before its first render: %HP, highest
        first. */
    method SetDefault(c: C)
      modifies this
      ensures column == Some(c) && descending
    {
      column := Some(c);
      descending := true;
    }
  }

  // ---------------------------------------------------------------------
  // Ordering of the move list

  /** The comparator key of the move list for a column name; an unknown
      name compares every pair as equal. */
  function MoveKey(columnName: string): Hit -> Key
  {
    (h: Hit) =>
      if columnName == "moveType" then Word(Codes(h.record.moveType))
      else if columnName == "attacker" then Word(Codes(h.attacker))
      else if columnName == "damage" then Num(h.record.damage)
      else if columnName == "percentHp" then Num(h.record.percentHp)
      else Num(0.0)
  }

  /** sortMoveDamageTable: update the state unless the toggle is skipped,
      then sort stably, descending when the state says so. */
  method SortMoveDamageTable(state: SortState<string>, moves: seq<Hit>, columnName: string, skipDirectionToggle: bool)
    returns (sorted: seq<Hit>)
    modifies state
    ensures skipDirectionToggle ==> state.column == old(state.column) && state.descending == old(state.descending)
    ensures !skipDirectionToggle ==> (state.column, state.descending) == Toggle(old(state.column), old(state.descending), columnName)
    ensures sorted == SortByKey(moves, MoveKey(columnName), !state.descending)
  {
    if !skipDirectionToggle {
      state.Click(columnName);
    }
    sorted := SortByKey(moves, MoveKey(columnName), !state.descending);
  }

  /** The move list sorted on any column is a permutation ordered by that
      column, and an unknown column leaves it as it was. */
  lemma MoveSortCorrect(moves: seq<Hit>, columnName: string, descending: bool)
    ensures var r := SortByKey(moves, MoveKey(columnName), !descending);
      multiset(r) == multiset(moves) && SortedBy(r, MoveKey(columnName), !descending)
    ensures columnName !in {"moveType", "attacker", "damage", "percentHp"} ==>
      SortByKey(moves, MoveKey(columnName), !descending) == moves
  {
    SortByKeyCorrect(moves, MoveKey(columnName), !descending);
    if columnName !in {"moveType", "attacker", "damage", "percentHp"} {
      SortEqualKeys(moves, MoveKey(columnName), !descending, Num(0.0));
    }
  }

  /** The first render lists the moves highest %HP first. */
  lemma DefaultOrderHighestFirst(moves: seq<Hit>)
    ensures var r := SortByKey(moves, MoveKey("percentHp"), false);
      forall i, j :: 0 <= i < j < |r| ==> r[i].record.percentHp >= r[j].record.percentHp
  {
    SortByKeyCorrect(moves, MoveKey("percentHp"), false);
    var r := SortByKey(moves, MoveKey("percentHp"), false);
    forall i, j | 0 <= i < j < |r|
      ensures r[i].record.percentHp >= r[j].record.percentHp
    {
      assert !Precedes(MoveKey("percentHp")(r[j]), MoveKey("percentHp")(r[i]), false);
    }
  }

  // ---------------------------------------------------------------------
  // Row order of the matrix (renderMaxDamageTable)

  /** The first index whose element satisfies `p` (JavaScript `find`). */
  function First<T>(s: seq<T>, p: T -> bool): (r: Option<nat>)
    ensures r.Some? ==> r.value < |s| && p(s[r.value]) && forall i :: 0 <= i < r.value ==> !p(s[i])
    ensures r.None? ==> forall i :: 0 <= i < |s| ==> !p(s[i])
  {
    if s == [] then None
    else if p(s[0]) then Some(0)
    else match First(s[1..], p)
      case None => None
      case Some(i) => Some(i + 1)
  }

  /** Attacker view: a row's key is its %HP against the column's defender.
      The column index comes from a rendered header, so it is always within
      the row (AttackerRowsOrdered requires it); the 0 past the row's end
      stands for the TypeError the source would raise and is never reached. */
  function ColumnKey(col: nat): AttackerRow -> Key
  {
    (row: AttackerRow) => Num(if col < |row.damages| then row.damages[col].percentHp else 0.0)
  }

  /** Defender view: the attacker of the column is looked up by name, then
      its cell for the row's defender by name; a missing cell counts 0. */
  function DefenderDamage(maxDamageData: seq<AttackerRow>, col: nat, defender: Monster): real
    requires col < |maxDamageData|
  {
    var attackerName := maxDamageData[col].name;
    var i := First(maxDamageData, (r: AttackerRow) => r.name == attackerName);
    assert i.Some? by {
      assert maxDamageData[col].name == attackerName;
    }
    var damages := maxDamageData[i.value].damages;
    match First(damages, (d: MaxDamage) => d.defenderName == defender.name)
    case None => 0.0
    case Some(j) => damages[j].percentHp
  }

  /** Defender view: the sort key of a monster. As for ColumnKey, the 0 for
      a column past the attackers is never reached from a rendered header. */
  function DefenderKey(maxDamageData: seq<AttackerRow>, col: nat): Monster -> Key
  {
    (m: Monster) => Num(if col < |maxDamageData| then DefenderDamage(maxDamageData, col, m) else 0.0)
  }

  /** The rows in display order, attacker view: as computed when no column
      is selected, else sorted stably by the selected column. */
  function AttackerRows(maxDamageData: seq<AttackerRow>, column: Option<nat>, descending: bool): (r: seq<AttackerRow>)
    ensures column.None? ==> r == maxDamageData
    ensures column.Some? ==> r == SortByKey(maxDamageData, ColumnKey(column.value), !descending)
  {
    if column.None? then maxDamageData
    else SortByKey(maxDamageData, ColumnKey(column.value), !descending)
  }

  /** The rows in display order, defender view. */
  function DefenderRows(maxDamageData: seq<AttackerRow>, data: seq<Monster>, column: Option<nat>, descending: bool): (r: seq<Monster>)
    ensures column.None? ==> r == data
    ensures column.Some? ==> r == SortByKey(data, DefenderKey(maxDamageData, column.value), !descending)
  {
    if column.None? then data
    else SortByKey(data, DefenderKey(maxDamageData, column.value), !descending)
  }

  /** Attacker view: the rows are a permutation ordered by their %HP in the
      selected column. */
  lemma AttackerRowsOrdered(maxDamageData: seq<AttackerRow>, col: nat, descending: bool)
    requires forall i :: 0 <= i < |maxDamageData| ==> col < |maxDamageData[i].damages|
    ensures var r := AttackerRows(maxDamageData, Some(col), descending);
      && multiset(r) == multiset(maxDamageData)
      && forall i, j :: 0 <= i < j < |r| ==> (col < |r[i].damages| && col < |r[j].damages| &&
           if descending then r[i].damages[col].percentHp >= r[j].damages[col].percentHp
           else r[i].damages[col].percentHp <= r[j].damages[col].percentHp)
  {
    var r := AttackerRows(maxDamageData, Some(col), descending);
    SortByKeyCorrect(maxDamageData, ColumnKey(col), !descending);
    forall i | 0 <= i < |r|
      ensures col < |r[i].damages|
    {
      assert r[i] in multiset(maxDamageData);
    }
    forall i, j | 0 <= i < j < |r|
      ensures if descending then r[i].damages[col].percentHp >= r[j].damages[col].percentHp
           else r[i].damages[col].percentHp <= r[j].damages[col].percentHp
    {
      assert !Precedes(ColumnKey(col)(r[j]), ColumnKey(col)(r[i]), !descending);
    }
  }

  /** The matrix shape calculateMaxDamage produces: row i is named after
      monster i and its cell j after monster j. */
  predicate Shaped(maxDamageData: seq<AttackerRow>, data: seq<Monster>)
  {
    && |maxDamageData| == |data|
    && forall i :: 0 <= i < |data| ==> (maxDamageData[i].name == data[i].name
         && |maxDamageData[i].damages| == |data|
         && forall j :: 0 <= j < |data| ==> maxDamageData[i].damages[j].defenderName == data[j].name)
  }

  lemma MaxDamageShaped(chart: Chart, data: seq<Monster>, moves: seq<Move>, maxDamageData: seq<AttackerRow>)
    requires Ready(chart, data, moves)
    requires |maxDamageData| == |data|
    requires forall i :: 0 <= i < |data| ==> RowFor(chart, data, moves, data[i], maxDamageData[i])
    ensures Shaped(maxDamageData, data)
  {
  }

  /** With distinct names, the defender view's key of monster j is exactly
      the column attacker's cell j. */
  lemma DefenderKeyIsCell(maxDamageData: seq<AttackerRow>, data: seq<Monster>, col: nat, j: nat)
    requires Shaped(maxDamageData, data) && col < |data| && j < |data|
    requires forall a, b :: 0 <= a < b < |data| ==> data[a].name != data[b].name
    ensures DefenderDamage(maxDamageData, col, data[j]) == maxDamageData[col].damages[j].percentHp
  {
    var attackerName := maxDamageData[col].name;
    var i := First(maxDamageData, (r: AttackerRow) => r.name == attackerName);
    assert maxDamageData[col].name == attackerName;
    assert i.value == col;
    var damages := maxDamageData[col].damages;
    var f := First(damages, (d: MaxDamage) => d.defenderName == data[j].name);
    assert damages[j].defenderName == data[j].name;
    assert f.value == j;
  }

  /** Defender view: the monsters are a permutation ordered by the damage the
      selected attacker deals them. */
  lemma DefenderRowsOrdered(maxDamageData: seq<AttackerRow>, data: seq<Monster>, col: nat, descending: bool)
    requires col < |maxDamageData|
    ensures var r := DefenderRows(maxDamageData, data, Some(col), descending);
      && multiset(r) == multiset(data)
      && forall i, j :: 0 <= i < j < |r| ==>
           var a, b := DefenderDamage(maxDamageData, col, r[i]), DefenderDamage(maxDamageData, col, r[j]);
           if descending then a >= b else a <= b
  {
    var r := DefenderRows(maxDamageData, data, Some(col), descending);
    SortByKeyCorrect(data, DefenderKey(maxDamageData, col), !descending);
    forall i, j | 0 <= i < j < |r|
      ensures var a, b := DefenderDamage(maxDamageData, col, r[i]), DefenderDamage(maxDamageData, col, r[j]);
           if descending then a >= b else a <= b
    {
      assert !Precedes(DefenderKey(maxDamageData, col)(r[j]), DefenderKey(maxDamageData, col)(r[i]), !descending);
    }
  }

  // ---------------------------------------------------------------------
  // Colour scaling

  /** How a cell or a row is shaded: above 90 %HP it is marked high damage,
      otherwise tinted by its intensity; when every value of the table is
      the same the intensity is NaN and the cell is left untinted. */
  datatype Shade = HighDamage | Tint(intensity: int) | NoTint

  function ShadeOf(value: real, minDamage: real, maxDamage: real): (s: Shade)
    ensures s.HighDamage? <==> value > 90.0
    ensures s.NoTint? <==> value <= 90.0 && minDamage == maxDamage
    ensures s.Tint? && minDamage <= value <= maxDamage ==> 0 <= s.intensity <= 40
  {
    if value > 90.0 then HighDamage
    else match ColorIntensity(value, minDamage, maxDamage)
      case None => NoTint
      case Some(i) => Tint(i)
  }

  /** Every value of a list gets the high-damage mark, no tint when all the
      values are equal, or a tint in 0..40 with 40 for the largest values. */
  lemma ShadesInRange(values: seq<real>, k: nat)
    requires k < |values|
    ensures var s := ShadeOf(values[k], MinOf(values), MaxOf(values));
      && (s.HighDamage? <==> values[k] > 90.0)
      && (s.NoTint? <==> values[k] <= 90.0 && MinOf(values) == MaxOf(values))
      && (s.Tint? ==> 0 <= s.intensity <= 40 && (s.intensity == 40 <==> values[k] == MaxOf(values)))
  {
  }

  /** A value of at most 90 %HP is left untinted exactly when every value of
      the list equals it, as with a single monster or a single move. */
  lemma NoTintIffEqual(values: seq<real>, k: nat)
    requires k < |values| && values[k] <= 90.0
    ensures ShadeOf(values[k], MinOf(values), MaxOf(values)) == NoTint
      <==> forall i :: 0 <= i < |values| ==> values[i] == values[k]
  {
  }
}
