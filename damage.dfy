/** The damage formula of the matchup analysis page: the type-effectiveness
    lookup in the parsed type chart, the damage and %HP of one move used by
    one monster against another, and the moves that belong to a monster. */
module Damage {
  import opened Text
  import opened TypePacking
  import opened TypeGraph

  /** A monster's row as the analysis reads it; the stats are already
      coerced to numbers. */
  datatype Monster = Monster(
    name: string, type1: string, type2: string,
    hp: real, attack: real, defense: real,
    specialAttack: real, specialDefense: real)

  /** The Power column of a move: a number (`parseInt || 0`) or the literal
      `"?"` kept by the move loader. */
  datatype Power = Amount(x: real) | Unknown

  datatype Move = Move(name: string, mon: string, moveType: string, moveClass: string, power: Power)

  /** The record calculateMoveDamage builds for a damaging move. */
  datatype DamageRecord = DamageRecord(
    damage: real, baseDamage: real,
    moveName: string, moveType: string, moveClass: string,
    typeMultiplier: real, power: real, percentHp: real,
    attackStat: real, defenseStat: real,
    attackStatName: string, defenseStatName: string)

  /** The chart has the entries a lookup for this attack type against this
      defender reads; a second type of "NA" is never looked up. */
  predicate Covers(chart: Chart, attackType: string, type1: string, type2: string)
  {
    attackType in chart && type1 in chart[attackType]
    && (type2 == "NA" || type2 in chart[attackType])
  }

  /** getTypeEffectiveness: each defender type contributes its chart entry
      (a raw 5 standing for x0.5), a second type "NA" contributes x1, and the
      multiplier is the product. */
  function TypeEffectiveness(chart: Chart, attackType: string, type1: string, type2: string): (r: real)
    requires Covers(chart, attackType, type1, type2)
    ensures type2 == "NA" ==> r == Shown(chart[attackType][type1])
    ensures type2 != "NA" ==> r == Shown(chart[attackType][type1]) * Shown(chart[attackType][type2])
  {
    var first := Shown(chart[attackType][type1]);
    var second := if type2 == "NA" then 1.0 else Shown(chart[attackType][type2]);
    first * second
  }

  /** A chart entry read from the type-chart file holding multiplier m. */
  predicate Holds(chart: Chart, attackType: string, defenderType: string, m: int)
  {
    attackType in chart && defenderType in chart[attackType]
    && chart[attackType][defenderType] == m as real
  }

  /** The browser's lookup agrees with the packed on-chain chart: for
      multipliers in {0, 1, 2, 5}, the factor of each defender type is the
      multiplier its 2-bit code decodes to. */
  lemma TypeEffectivenessMatchesCodes(chart: Chart, attackType: string, type1: string, type2: string, m1: int, m2: int)
    requires Holds(chart, attackType, type1, m1) && Known(m1)
    requires type2 == "NA" || (Holds(chart, attackType, type2, m2) && Known(m2))
    ensures Covers(chart, attackType, type1, type2)
    ensures TypeEffectiveness(chart, attackType, type1, type2)
      == CodeMultiplier(Code(m1)) * (if type2 == "NA" then 1.0 else CodeMultiplier(Code(m2)))
  {
    ShownAgreesWithCode(m1);
    if type2 != "NA" {
      ShownAgreesWithCode(m2);
    }
  }

  /** With multipliers in {0, 1, 2, 5} the combined multiplier is one of
      x0, x0.25, x0.5, x1, x2 or x4. */
  lemma TypeEffectivenessRange(chart: Chart, attackType: string, type1: string, type2: string, m1: int, m2: int)
    requires Holds(chart, attackType, type1, m1) && Known(m1)
    requires type2 == "NA" || (Holds(chart, attackType, type2, m2) && Known(m2))
    ensures Covers(chart, attackType, type1, type2)
    ensures TypeEffectiveness(chart, attackType, type1, type2) in {0.0, 0.25, 0.5, 1.0, 2.0, 4.0}
  {
    var f1 := Shown(m1 as real);
    assert f1 in {0.0, 0.5, 1.0, 2.0};
    if type2 != "NA" {
      var f2 := Shown(m2 as real);
      assert f2 in {0.0, 0.5, 1.0, 2.0};
      assert TypeEffectiveness(chart, attackType, type1, type2) == f1 * f2;
    }
  }

  /** The defender stats the formula divides by are positive. */
  predicate Positive(d: Monster)
  {
    d.hp > 0.0 && d.defense > 0.0 && d.specialDefense > 0.0
  }

  /** calculateMoveDamage goes past its early returns: the power is a
      non-zero number (not `"?"`, not 0) and the class is Physical or
      Special. */
  predicate Damaging(move: Move)
  {
    move.power.Amount? && move.power.x != 0.0
    && (move.moveClass == "Physical" || move.moveClass == "Special")
  }

  /** What calculateMoveDamage needs of its inputs once the move is
      damaging. */
  predicate Computable(chart: Chart, move: Move, defender: Monster)
  {
    Damaging(move) ==> Positive(defender) && Covers(chart, move.moveType, defender.type1, defender.type2)
  }

  /** `d` is the damage record of `move` used by `attacker` against
      `defender`: Physical moves pair Attack with Defense and Special moves
      Sp.Atk with Sp.Def; base damage times the defense stat is power times
      the attack stat, the damage is the base damage times the type
      multiplier, and the %HP times the defender's HP is 100 times the
      damage. */
  predicate Describes(d: DamageRecord, chart: Chart, move: Move, attacker: Monster, defender: Monster)
    requires Damaging(move) && Computable(chart, move, defender)
  {
    var physical := move.moveClass == "Physical";
    && d.attackStat == (if physical then attacker.attack else attacker.specialAttack)
    && d.defenseStat == (if physical then defender.defense else defender.specialDefense)
    && d.attackStatName == (if physical then "Attack" else "Sp.Atk")
    && d.defenseStatName == (if physical then "Defense" else "Sp.Def")
    && d.moveName == move.name && d.moveType == move.moveType && d.moveClass == move.moveClass
    && d.power == move.power.x
    && d.typeMultiplier == TypeEffectiveness(chart, move.moveType, defender.type1, defender.type2)
    && d.baseDamage * d.defenseStat == d.power * d.attackStat
    && d.damage == d.baseDamage * d.typeMultiplier
    && d.percentHp * defender.hp == 100.0 * d.damage
  }

  /** calculateMoveDamage: None (null) exactly for the moves it skips,
      otherwise the record of the damage formula. */
  function MoveDamage(chart: Chart, move: Move, attacker: Monster, defender: Monster): (r: Option<DamageRecord>)
    requires Computable(chart, move, defender)
    ensures r.Some? <==> Damaging(move)
    ensures r.Some? ==> Describes(r.value, chart, move, attacker, defender)
  {
    if !Damaging(move) then None
    else
      var physical := move.moveClass == "Physical";
      var attackStat := if physical then attacker.attack else attacker.specialAttack;
      var defenseStat := if physical then defender.defense else defender.specialDefense;
      var baseDamage := move.power.x * attackStat / defenseStat;
      var typeMultiplier := TypeEffectiveness(chart, move.moveType, defender.type1, defender.type2);
      var damage := baseDamage * typeMultiplier;
      Some(DamageRecord(
        damage, baseDamage, move.name, move.moveType, move.moveClass,
        typeMultiplier, move.power.x, damage / defender.hp * 100.0,
        attackStat, defenseStat,
        if physical then "Attack" else "Sp.Atk",
        if physical then "Defense" else "Sp.Def"))
  }

  /** The %HP in closed form: power x attack x multiplier x 100 over
      defense x HP. */
  lemma PercentHpClosedForm(chart: Chart, move: Move, attacker: Monster, defender: Monster)
    requires Damaging(move) && Computable(chart, move, defender)
    ensures var d := MoveDamage(chart, move, attacker, defender).value;
      d.percentHp == move.power.x * d.attackStat * d.typeMultiplier * 100.0 / (d.defenseStat * defender.hp)
  {
    var d := MoveDamage(chart, move, attacker, defender).value;
    var p, a, m, s, h := move.power.x, d.attackStat, d.typeMultiplier, d.defenseStat, defender.hp;
    assert s > 0.0 && h > 0.0;
    assert d.baseDamage == p * a / s;
    assert d.percentHp == (p * a / s) * m / h * 100.0;
    assert (p * a / s) * m / h * 100.0 == p * a * m * 100.0 / (s * h);
  }

  /** A move with positive power, used by a monster with non-negative
      attack stats, against a chart with non-negative entries, never deals
      negative damage. */
  lemma PercentHpNonNegative(chart: Chart, move: Move, attacker: Monster, defender: Monster)
    requires Damaging(move) && Computable(chart, move, defender)
    requires move.power.x > 0.0 && attacker.attack >= 0.0 && attacker.specialAttack >= 0.0
    requires forall a, t :: a in chart && t in chart[a] ==> chart[a][t] >= 0.0
    ensures MoveDamage(chart, move, attacker, defender).value.percentHp >= 0.0
  {
    var d := MoveDamage(chart, move, attacker, defender).value;
    var t := move.moveType;
    assert Shown(chart[t][defender.type1]) >= 0.0;
    assert d.typeMultiplier >= 0.0 by {
      if defender.type2 != "NA" {
        assert Shown(chart[t][defender.type2]) >= 0.0;
      }
    }
    PercentHpClosedForm(chart, move, attacker, defender);
    assert move.power.x * d.attackStat >= 0.0;
    assert move.power.x * d.attackStat * d.typeMultiplier * 100.0 >= 0.0;
    assert d.defenseStat * defender.hp > 0.0;
  }

  /** getMovesForMonster: the moves whose Mon is `name`, in order. */
  function MovesFor(moves: seq<Move>, name: string): (r: seq<Move>)
    ensures |r| <= |moves|
    ensures forall m :: m in r <==> m in moves && m.mon == name
  {
    if moves == [] then []
    else
      var last := moves[|moves| - 1];
      MovesFor(moves[..|moves| - 1], name) + (if last.mon == name then [last] else [])
  }

  /** The filter distributes over concatenation, so it keeps the order of
      the moves file. */
  lemma {:induction false} MovesForAppend(a: seq<Move>, b: seq<Move>, name: string)
    ensures MovesFor(a + b, name) == MovesFor(a, name) + MovesFor(b, name)
    decreases |b|
  {
    if b == [] {
      assert a + b == a;
    } else {
      var b', last := b[..|b| - 1], b[|b| - 1];
      var extra := if last.mon == name then [last] else [];
      InitOfAppend(a, b);
      MovesForAppend(a, b', name);
      assert MovesFor(a + b, name) == MovesFor(a + b', name) + extra;
      assert MovesFor(b, name) == MovesFor(b', name) + extra;
      assert MovesFor(a, name) + MovesFor(b', name) + extra == MovesFor(a, name) + (MovesFor(b', name) + extra);
    }
  }


  /** Every move of the list is kept or dropped by its Mon field alone. */
  lemma {:induction false} MovesForAll(moves: seq<Move>, name: string)
    requires forall k :: 0 <= k < |moves| ==> moves[k].mon == name
    ensures MovesFor(moves, name) == moves
    decreases |moves|
  {
    if moves != [] {
      var init, last := moves[..|moves| - 1], moves[|moves| - 1];
      assert last.mon == name;
      assert forall k :: 0 <= k < |init| ==> init[k].mon == name by {
        assert forall k :: 0 <= k < |init| ==> init[k] == moves[k];
      }
      MovesForAll(init, name);
      assert init + [last] == moves;
    }
  }
}
