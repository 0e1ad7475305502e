/** The mon guide of drool/mon-full.js: one card per mon with stat bars
    scaled by the largest value of each stat, the mon's moves and
    abilities, and previous/next navigation that wraps around. */
module MonGuide {
  import opened Text
  import opened JsValues

  // ---------------------------------------------------------------------
  // Navigation

  /** JavaScript's `%`, which truncates toward zero. */
  function JsRem(a: int, n: int): (r: int)
    requires n > 0
    ensures a >= 0 ==> r == a % n
  {
    if a >= 0 then a % n else -((-a) % n)
  }

  /** goToPrevMon's new index. */
  function PrevIndex(i: int, n: nat): int
    requires n > 0
  {
    JsRem(i - 1 + n, n)
  }

  /** goToNextMon's new index. */
  function NextIndex(i: int, n: nat): int
    requires n > 0
  {
    JsRem(i + 1 + n, n)
  }

  lemma ModBelow(x: int, n: int)
    requires 0 <= x < n
    ensures x % n == x
  {
    assert x == 0 * n + x;
  }

  lemma ModOnce(x: int, n: int)
    requires n <= x < 2 * n
    ensures x % n == x - n
  {
    assert x == 1 * n + (x - n);
  }

  lemma ModTwice(x: int, n: int)
    requires n > 0 && x == 2 * n
    ensures x % n == 0
  {
    assert x == 2 * n + 0;
  }

  /** From an index in range both buttons keep the index in range: prev
      steps back and wraps from the first mon to the last, next steps
      forward and wraps from the last to the first. */
  lemma NavigationSteps(i: int, n: nat)
    requires 0 <= i < n
    ensures PrevIndex(i, n) == if i == 0 then n - 1 else i - 1
    ensures NextIndex(i, n) == if i == n - 1 then 0 else i + 1
  {
    if i == 0 {
      ModBelow(i - 1 + n, n);
    } else {
      ModOnce(i - 1 + n, n);
    }
    if i == n - 1 {
      ModTwice(i + 1 + n, n);
    } else {
      ModOnce(i + 1 + n, n);
    }
  }

  /** Each button undoes the other. */
  lemma NavigationInverse(i: int, n: nat)
    requires 0 <= i < n
    ensures NextIndex(PrevIndex(i, n), n) == i
    ensures PrevIndex(NextIndex(i, n), n) == i
  {
    NavigationSteps(i, n);
    NavigationSteps(PrevIndex(i, n), n);
    NavigationSteps(NextIndex(i, n), n);
  }

  /** The index after `k` presses of the next button. */
  function Nexts(i: int, n: nat, k: nat): int
    requires n > 0
  {
    if k == 0 then i else NextIndex(Nexts(i, n, k - 1), n)
  }

  /** `k <= n` presses of next move the index `k` places around the
      ring. */
  lemma {:induction false} NextsAround(i: int, n: nat, k: nat)
    requires 0 <= i < n && k <= n
    ensures Nexts(i, n, k) == if i + k < n then i + k else i + k - n
  {
    if k > 0 {
      NextsAround(i, n, k - 1);
      NavigationSteps(Nexts(i, n, k - 1), n);
    }
  }

  /** `n` presses of next come back to the start. */
  lemma NextsReturn(i: int, n: nat)
    requires 0 <= i < n
    ensures Nexts(i, n, n) == i
  {
    NextsAround(i, n, n);
  }

  /** The guide's current mon among `count` mons. */
  class Navigator {
    const count: nat
    var monIndex: int

    predicate Valid()
      reads this
    {
      count > 0 ==> 0 <= monIndex < count
    }

    constructor (count: nat)
      ensures Valid() && this.count == count && monIndex == 0
    {
      this.count := count;
      monIndex := 0;
    }

    method GoToPrevMon()
      requires Valid() && count > 0
      modifies this
      ensures Valid() && monIndex == PrevIndex(old(monIndex), count)
    {
      NavigationSteps(monIndex, count);
      monIndex := JsRem(monIndex - 1 + count, count);
    }

    method GoToNextMon()
      requires Valid() && count > 0
      modifies this
      ensures Valid() && monIndex == NextIndex(old(monIndex), count)
    {
      NavigationSteps(monIndex, count);
      monIndex := JsRem(monIndex + 1 + count, count);
    }
  }

  // ---------------------------------------------------------------------
  // Stat maxima and bars

  /** A JavaScript number as `Math.max` produces it. */
  datatype Extended = NegInfinity | NotANumber | Finite(x: real)

  /** `mon[stat]` as a number: None (NaN) when it is missing or not a
      number cell. */
  function StatValue(mon: Row, stat: string): Option<real>
  {
    if stat in mon && mon[stat].Num? then Some(mon[stat].x) else None
  }

  /** `Math.max(...values)`: -Infinity of no values, NaN when any value
      is NaN, the largest value otherwise. */
  function MathMax(values: seq<Option<real>>): Extended
  {
    if values == [] then NegInfinity
    else
      var m := MathMax(values[..|values| - 1]);
      match values[|values| - 1]
      case None => NotANumber
      case Some(v) =>
        match m
        case NotANumber => NotANumber
        case NegInfinity => Finite(v)
        case Finite(x) => Finite(if v > x then v else x)
  }

  /** The maximum is -Infinity exactly for no values, NaN exactly when a
      value is NaN, and otherwise a bound of every value that one of them
      reaches. */
  lemma {:induction false} MathMaxFacts(values: seq<Option<real>>)
    ensures MathMax(values) == NegInfinity <==> values == []
    ensures MathMax(values) == NotANumber <==> exists k :: 0 <= k < |values| && values[k].None?
    ensures MathMax(values).Finite? ==>
      (forall k :: 0 <= k < |values| ==> values[k].Some? && values[k].value <= MathMax(values).x)
      && (exists k :: 0 <= k < |values| && values[k] == Some(MathMax(values).x))
  {
    if values != [] {
      var init := values[..|values| - 1];
      MathMaxFacts(init);
      assert forall k :: 0 <= k < |init| ==> init[k] == values[k];
      if MathMax(values) == NotANumber && values[|values| - 1].Some? {
        var k :| 0 <= k < |init| && init[k].None?;
        assert values[k].None?;
      }
      if MathMax(values).Finite? && MathMax(init).Finite? {
        var j :| 0 <= j < |init| && init[j] == Some(MathMax(init).x);
        assert values[j] == init[j];
      }
    }
  }

  const Stats: seq<string> := ["HP", "Attack", "Defense", "SpecialAttack", "SpecialDefense", "Speed"]

  function StatColumn(mons: seq<Row>, stat: string): (r: seq<Option<real>>)
    ensures |r| == |mons| && forall i :: 0 <= i < |mons| ==> r[i] == StatValue(mons[i], stat)
  {
    seq(|mons|, i requires 0 <= i < |mons| => StatValue(mons[i], stat))
  }

  /** maxStats: for each of the six stats the `Math.max` over the mons. */
  function MaxStats(mons: seq<Row>): map<string, Extended>
  {
    map s | s in Stats :: MathMax(StatColumn(mons, s))
  }

  /** A finite maximum bounds that stat of every mon, and some mon has
      it. */
  lemma MaxStatsBound(mons: seq<Row>, stat: string)
    requires stat in Stats && MaxStats(mons)[stat].Finite?
    ensures forall i :: 0 <= i < |mons| ==>
      StatValue(mons[i], stat).Some? && StatValue(mons[i], stat).value <= MaxStats(mons)[stat].x
    ensures exists i :: 0 <= i < |mons| && StatValue(mons[i], stat) == Some(MaxStats(mons)[stat].x)
  {
    var column := StatColumn(mons, stat);
    MathMaxFacts(column);
    var i :| 0 <= i < |column| && column[i] == Some(MathMax(column).x);
    assert StatValue(mons[i], stat) == column[i];
  }

  /** The bar width `(value / max) * 100`, in per cent; None where the
      division gives no finite number. */
  function BarWidth(value: real, max: Extended): Option<real>
  {
    if max.Finite? && max.x != 0.0 then Some(value / max.x * 100.0) else None
  }

  /** With non-negative stats and a positive maximum, each bar is between
      0 and 100 per cent wide. */
  lemma BarWidthBounds(mons: seq<Row>, stat: string, i: nat)
    requires stat in Stats && i < |mons| && MaxStats(mons)[stat].Finite? && MaxStats(mons)[stat].x > 0.0
    requires StatValue(mons[i], stat).Some? ==> StatValue(mons[i], stat).value >= 0.0
    ensures StatValue(mons[i], stat).Some?
    ensures var w := BarWidth(StatValue(mons[i], stat).value, MaxStats(mons)[stat]);
      w.Some? && 0.0 <= w.value <= 100.0
  {
    MaxStatsBound(mons, stat);
    PercentBounds(StatValue(mons[i], stat).value, MaxStats(mons)[stat].x);
  }

  lemma PercentBounds(v: real, m: real)
    requires 0.0 <= v <= m && m > 0.0
    ensures 0.0 <= v / m * 100.0 <= 100.0
  {
    assert v / m <= 1.0 by {
      assert v / m * m == v;
    }
  }

  // ---------------------------------------------------------------------
  // Moves and abilities of a mon

  /** `row[key]`, None when the key is missing (`undefined`). */
  function Get(row: Row, key: string): Option<Cell>
  {
    if key in row then Some(row[key]) else None
  }

  /** The rows whose Mon is `name`, in order (`filter(x => x.Mon === name)`). */
  function RowsOf(rows: seq<Row>, name: Option<Cell>): seq<Row>
  {
    if rows == [] then []
    else RowsOf(rows[..|rows| - 1], name) + (if Get(rows[|rows| - 1], "Mon") == name then [rows[|rows| - 1]] else [])
  }

  /** A mon's moves or abilities: none when the data did not load. */
  function MonRows(data: Option<seq<Row>>, mon: Row): seq<Row>
  {
    match data case None => [] case Some(rows) => RowsOf(rows, Get(mon, "Name"))
  }

  /** The filter keeps exactly the rows of that mon. */
  lemma {:induction false} RowsOfMembers(rows: seq<Row>, name: Option<Cell>)
    ensures forall r :: r in RowsOf(rows, name) <==> r in rows && Get(r, "Mon") == name
  {
    if rows != [] {
      RowsOfMembers(rows[..|rows| - 1], name);
      assert rows == rows[..|rows| - 1] + [rows[|rows| - 1]];
    }
  }

  /** The filter keeps the order: filtering a concatenation concatenates
      the filtered parts. */
  lemma {:induction false} RowsOfAppend(a: seq<Row>, b: seq<Row>, name: Option<Cell>)
    ensures RowsOf(a + b, name) == RowsOf(a, name) + RowsOf(b, name)
    decreases |b|
  {
    if b == [] {
      assert a + b == a;
    } else {
      var init := b[..|b| - 1];
      var last := b[|b| - 1];
      assert (a + b)[..|a + b| - 1] == a + init;
      assert (a + b)[|a + b| - 1] == last;
      RowsOfAppend(a, init, name);
      var extra := if Get(last, "Mon") == name then [last] else [];
      assert RowsOf(a, name) + RowsOf(init, name) + extra == RowsOf(a, name) + (RowsOf(init, name) + extra);
    }
  }
}
