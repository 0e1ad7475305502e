/** Sorting as the repository uses it: JavaScript's `Array.prototype.sort`
    with a comparator and Python's `sorted`, both stable. Every sort in the
    core orders by a key that is either a number or a sequence of integers
    compared lexicographically (the code points of a string, or a colour
    tuple). */
module Sorting {
  import opened Text

  datatype Key = Num(x: real) | Word(w: seq<int>)

  /** The code points of a string, the key under which strings compare
      (Python string order; `localeCompare` is taken to be this order). */
  function Codes(s: string): (r: seq<int>)
    ensures |r| == |s|
    ensures forall k :: 0 <= k < |s| ==> r[k] == s[k] as int
  {
    if s == [] then [] else [s[0] as int] + Codes(s[1..])
  }

  lemma CodesInjective(a: string, b: string)
    requires Codes(a) == Codes(b)
    ensures a == b
  {
    assert forall k :: 0 <= k < |a| ==> a[k] as int == b[k] as int;
  }

  /** Lexicographic order: a proper prefix comes first, otherwise the first
      differing position decides. */
  predicate LexLess(a: seq<int>, b: seq<int>)
  {
    if a == [] then b != []
    else if b == [] then false
    else if a[0] == b[0] then LexLess(a[1..], b[1..])
    else a[0] < b[0]
  }

  /** The strict order on keys; numbers come before words (a column never
      mixes the two). */
  predicate Less(a: Key, b: Key)
  {
    match (a, b)
    case (Num(x), Num(y)) => x < y
    case (Num(_), Word(_)) => true
    case (Word(_), Num(_)) => false
    case (Word(v), Word(w)) => LexLess(v, w)
  }

  lemma {:induction false} LexIrreflexive(a: seq<int>)
    ensures !LexLess(a, a)
  {
    if a != [] {
      LexIrreflexive(a[1..]);
    }
  }

  lemma {:induction false} LexTransitive(a: seq<int>, b: seq<int>, c: seq<int>)
    requires LexLess(a, b) && LexLess(b, c)
    ensures LexLess(a, c)
  {
    if a != [] && b != [] && c != [] && a[0] == b[0] && b[0] == c[0] {
      LexTransitive(a[1..], b[1..], c[1..]);
    }
  }

  lemma {:induction false} LexTotal(a: seq<int>, b: seq<int>)
    ensures a == b || LexLess(a, b) || LexLess(b, a)
  {
    if a != [] && b != [] && a[0] == b[0] {
      LexTotal(a[1..], b[1..]);
      if a[1..] == b[1..] {
        assert a == [a[0]] + a[1..] && b == [b[0]] + b[1..];
      }
    }
  }

  /** `Less` is a strict total order. */
  lemma LessStrictTotal(a: Key, b: Key, c: Key)
    ensures !Less(a, a)
    ensures Less(a, b) && Less(b, c) ==> Less(a, c)
    ensures a == b || Less(a, b) || Less(b, a)
  {
    if a.Word? {
      LexIrreflexive(a.w);
    }
    if a.Word? && b.Word? && c.Word? && Less(a, b) && Less(b, c) {
      LexTransitive(a.w, b.w, c.w);
    }
    if a.Word? && b.Word? {
      LexTotal(a.w, b.w);
    }
  }

  /** `a` sorts strictly before `b` in the given direction. */
  predicate Precedes(a: Key, b: Key, ascending: bool)
  {
    if ascending then Less(a, b) else Less(b, a)
  }

  lemma PrecedesFacts(a: Key, b: Key, c: Key, ascending: bool)
    ensures !Precedes(a, a, ascending)
    ensures Precedes(a, b, ascending) ==> !Precedes(b, a, ascending)
    ensures !Precedes(a, b, ascending) && !Precedes(b, c, ascending) ==> !Precedes(a, c, ascending)
  {
    LessStrictTotal(a, b, a);
    LessStrictTotal(a, b, c);
    LessStrictTotal(b, a, c);
    LessStrictTotal(c, b, a);
    LessStrictTotal(a, c, b);
    LessStrictTotal(b, c, a);
    LessStrictTotal(c, a, b);
  }

  predicate SortedBy<T>(s: seq<T>, key: T -> Key, ascending: bool)
  {
    forall i, j :: 0 <= i < j < |s| ==> !Precedes(key(s[j]), key(s[i]), ascending)
  }

  /** Places `x` after every element that does not sort strictly after it. */
  function Insert<T>(s: seq<T>, x: T, key: T -> Key, ascending: bool): seq<T>
  {
    if s == [] then [x]
    else if Precedes(key(x), key(s[|s| - 1]), ascending) then
      Insert(s[..|s| - 1], x, key, ascending) + [s[|s| - 1]]
    else s + [x]
  }

  /** The stable sort: each element in turn is inserted behind its equals. */
  function SortByKey<T>(s: seq<T>, key: T -> Key, ascending: bool): seq<T>
  {
    if s == [] then []
    else Insert(SortByKey(s[..|s| - 1], key, ascending), s[|s| - 1], key, ascending)
  }

  /** The elements whose key is `k`, in order. */
  function WithKey<T>(s: seq<T>, key: T -> Key, k: Key): seq<T>
  {
    if s == [] then []
    else WithKey(s[..|s| - 1], key, k) + (if key(s[|s| - 1]) == k then [s[|s| - 1]] else [])
  }

  lemma {:induction false} WithKeyAppend<T>(a: seq<T>, b: seq<T>, key: T -> Key, k: Key)
    ensures WithKey(a + b, key, k) == WithKey(a, key, k) + WithKey(b, key, k)
    decreases |b|
  {
    if b == [] {
      assert a + b == a;
    } else {
      var b' := b[..|b| - 1];
      assert (a + b)[..|a + b| - 1] == a + b';
      assert (a + b)[|a + b| - 1] == b[|b| - 1];
      WithKeyAppend(a, b', key, k);
    }
  }

  lemma {:induction false} InsertElements<T>(s: seq<T>, x: T, key: T -> Key, ascending: bool)
    ensures multiset(Insert(s, x, key, ascending)) == multiset(s) + multiset{x}
    decreases |s|
  {
    if s != [] && Precedes(key(x), key(s[|s| - 1]), ascending) {
      InsertElements(s[..|s| - 1], x, key, ascending);
      assert s == s[..|s| - 1] + [s[|s| - 1]];
    }
  }

  lemma {:induction false} InsertSorted<T>(s: seq<T>, x: T, key: T -> Key, ascending: bool)
    requires SortedBy(s, key, ascending)
    ensures SortedBy(Insert(s, x, key, ascending), key, ascending)
    decreases |s|
  {
    if s == [] {
    } else {
      var last := s[|s| - 1];
      var s' := s[..|s| - 1];
      if Precedes(key(x), key(last), ascending) {
        InsertSorted(s', x, key, ascending);
        var a := Insert(s', x, key, ascending);
        InsertElements(s', x, key, ascending);
        forall i | 0 <= i < |a|
          ensures !Precedes(key(last), key(a[i]), ascending)
        {
          assert a[i] in multiset(a);
          if a[i] == x {
            PrecedesFacts(key(x), key(last), key(x), ascending);
          } else {
            assert a[i] in multiset(s');
            var j :| 0 <= j < |s'| && s'[j] == a[i];
            assert s[j] == a[i];
          }
        }
      } else {
        forall i | 0 <= i < |s|
          ensures !Precedes(key(x), key(s[i]), ascending)
        {
          if i < |s| - 1 {
            PrecedesFacts(key(x), key(last), key(s[i]), ascending);
          }
        }
      }
    }
  }

  lemma {:induction false} InsertWithKey<T>(s: seq<T>, x: T, key: T -> Key, ascending: bool, k: Key)
    requires SortedBy(s, key, ascending)
    ensures WithKey(Insert(s, x, key, ascending), key, k) ==
      WithKey(s, key, k) + (if key(x) == k then [x] else [])
    decreases |s|
  {
    if s == [] {
      assert WithKey([x], key, k) == WithKey([], key, k) + (if key(x) == k then [x] else []);
    } else {
      var s' := s[..|s| - 1];
      if Precedes(key(x), key(s[|s| - 1]), ascending) {
        assert SortedBy(s', key, ascending);
        InsertWithKey(s', x, key, ascending, k);
        InsertBeforeLast(s, x, key, ascending, k);
      } else {
        WithKeyAppend(s, [x], key, k);
        assert (s + [x])[..|s + [x]| - 1] == s;
      }
    }
  }

  lemma InsertBeforeLast<T>(s: seq<T>, x: T, key: T -> Key, ascending: bool, k: Key)
    requires s != [] && Precedes(key(x), key(s[|s| - 1]), ascending)
    requires WithKey(Insert(s[..|s| - 1], x, key, ascending), key, k) ==
      WithKey(s[..|s| - 1], key, k) + (if key(x) == k then [x] else [])
    ensures WithKey(Insert(s, x, key, ascending), key, k) ==
      WithKey(s, key, k) + (if key(x) == k then [x] else [])
  {
    var last := s[|s| - 1];
    var a := Insert(s[..|s| - 1], x, key, ascending);
    assert Insert(s, x, key, ascending) == a + [last];
    WithKeyAppend(a, [last], key, k);
    assert WithKey([last], key, k) == if key(last) == k then [last] else [];
    if key(x) == k && key(last) == k {
      PrecedesFacts(key(x), key(last), key(x), ascending);
    }
  }

  /** The sort is a permutation, is ordered, and is stable: for every key,
      the elements with that key keep their relative order. */
  lemma {:induction false} SortByKeyCorrect<T>(s: seq<T>, key: T -> Key, ascending: bool)
    ensures multiset(SortByKey(s, key, ascending)) == multiset(s)
    ensures SortedBy(SortByKey(s, key, ascending), key, ascending)
    ensures forall k :: WithKey(SortByKey(s, key, ascending), key, k) == WithKey(s, key, k)
    decreases |s|
  {
    if s != [] {
      var s' := s[..|s| - 1];
      var x := s[|s| - 1];
      SortByKeyCorrect(s', key, ascending);
      var r := SortByKey(s', key, ascending);
      InsertElements(r, x, key, ascending);
      InsertSorted(r, x, key, ascending);
      assert s == s' + [x];
      forall k
        ensures WithKey(SortByKey(s, key, ascending), key, k) == WithKey(s, key, k)
      {
        InsertWithKey(r, x, key, ascending, k);
      }
    }
  }

  lemma {:induction false} SortByKeyLength<T>(s: seq<T>, key: T -> Key, ascending: bool)
    ensures |SortByKey(s, key, ascending)| == |s|
  {
    SortByKeyCorrect(s, key, ascending);
    assert |multiset(SortByKey(s, key, ascending))| == |multiset(s)|;
  }

  /** When no two elements share a key the sort is strictly increasing in
      the sort direction. */
  lemma SortDistinctKeys<T>(s: seq<T>, key: T -> Key, ascending: bool)
    requires forall i, j :: 0 <= i < j < |s| ==> key(s[i]) != key(s[j])
    ensures var r := SortByKey(s, key, ascending);
      forall i, j :: 0 <= i < j < |r| ==> Precedes(key(r[i]), key(r[j]), ascending)
  {
    var r := SortByKey(s, key, ascending);
    SortByKeyCorrect(s, key, ascending);
    forall i, j | 0 <= i < j < |r|
      ensures Precedes(key(r[i]), key(r[j]), ascending)
    {
      assert r[i] in multiset(s) && r[j] in multiset(s);
      var i' :| 0 <= i' < |s| && s[i'] == r[i];
      var j' :| 0 <= j' < |s| && s[j'] == r[j];
      if key(r[i]) == key(r[j]) {
        // Two equal keys in s must come from the same position of s, so the
        // stable sort would list that element twice.
        assert i' == j';
        DistinctCount(s, key, i');
        assert WithKey(r, key, key(r[i])) == WithKey(s, key, key(r[i]));
        WithKeyCount(r, key, key(r[i]), i, j);
        assert false;
      }
      LessStrictTotal(key(r[i]), key(r[j]), key(r[i]));
    }
  }

  lemma {:induction false} DistinctCount<T>(s: seq<T>, key: T -> Key, p: nat)
    requires p < |s|
    requires forall i, j :: 0 <= i < j < |s| ==> key(s[i]) != key(s[j])
    ensures |WithKey(s, key, key(s[p]))| == 1
    decreases |s|
  {
    var s' := s[..|s| - 1];
    if p == |s| - 1 {
      NoneWithKey(s', key, key(s[p]));
    } else {
      DistinctCount(s', key, p);
    }
  }

  lemma {:induction false} NoneWithKey<T>(s: seq<T>, key: T -> Key, k: Key)
    requires forall i :: 0 <= i < |s| ==> key(s[i]) != k
    ensures WithKey(s, key, k) == []
    decreases |s|
  {
    if s != [] {
      NoneWithKey(s[..|s| - 1], key, k);
    }
  }

  lemma {:induction false} WithKeyCount<T>(s: seq<T>, key: T -> Key, k: Key, i: nat, j: nat)
    requires i < j < |s| && key(s[i]) == k && key(s[j]) == k
    ensures |WithKey(s, key, k)| >= 2
    decreases |s|
  {
    var s' := s[..|s| - 1];
    if j < |s| - 1 {
      WithKeyCount(s', key, k, i, j);
    } else {
      WithKeyOne(s', key, k, i);
    }
  }

  lemma {:induction false} WithKeyOne<T>(s: seq<T>, key: T -> Key, k: Key, i: nat)
    requires i < |s| && key(s[i]) == k
    ensures |WithKey(s, key, k)| >= 1
    decreases |s|
  {
    if i < |s| - 1 {
      WithKeyOne(s[..|s| - 1], key, k, i);
    }
  }

  /** A comparator that finds every pair equal leaves the order alone. */
  lemma {:induction false} SortEqualKeys<T>(s: seq<T>, key: T -> Key, ascending: bool, k: Key)
    requires forall i :: 0 <= i < |s| ==> key(s[i]) == k
    ensures SortByKey(s, key, ascending) == s
    decreases |s|
  {
    if s != [] {
      var s' := s[..|s| - 1];
      SortEqualKeys(s', key, ascending, k);
      LessStrictTotal(k, k, k);
      assert s' + [s[|s| - 1]] == s;
    }
  }

  // ---------------------------------------------------------------------
  // Header clicks

  /** A header click on column `c` of a table that remembers its sorted
      column and one direction flag: the sorted column clicked again flips
      the flag; any other column becomes the sorted one with the flag set.
      The matchup tables read the flag as descending, the stats table as
      ascending. */
  function Toggle<C(==)>(column: Option<C>, flag: bool, c: C): (r: (Option<C>, bool))
    ensures r.0 == Some(c)
    ensures r.1 <==> column != Some(c) || !flag
  {
    if column == Some(c) then (column, !flag) else (Some(c), true)
  }

  /** The state after `n` clicks on the same column. */
  function Clicks<C(==)>(column: Option<C>, flag: bool, c: C, n: nat): (Option<C>, bool)
  {
    if n == 0 then (column, flag)
    else
      var (col, f) := Clicks(column, flag, c, n - 1);
      Toggle(col, f, c)
  }

  /** Clicking a column that is not the sorted one n >= 1 times leaves the
      flag set after an odd number of clicks and clear after an even
      number. */
  lemma {:induction false} RepeatedClicks<C>(column: Option<C>, flag: bool, c: C, n: nat)
    requires column != Some(c) && n >= 1
    ensures Clicks(column, flag, c, n) == (Some(c), n % 2 == 1)
    decreases n
  {
    if n > 1 {
      RepeatedClicks(column, flag, c, n - 1);
    }
  }

  // ---------------------------------------------------------------------
  // Sorting a set

  /** Python's `sorted(list(s))` for a set whose elements have distinct
      keys: the set is listed in an unspecified order, then sorted. */
  method SortedSet<T>(s: set<T>, key: T -> Key) returns (r: seq<T>)
    requires forall x, y :: x in s && y in s && key(x) == key(y) ==> x == y
    ensures |r| == |s|
    ensures forall x :: x in r <==> x in s
    ensures forall i, j :: 0 <= i < j < |r| ==> Less(key(r[i]), key(r[j]))
  {
    var list: seq<T> := [];
    var rest := s;
    while rest != {}
      invariant rest <= s
      invariant forall x :: x in list <==> x in s && x !in rest
      invariant forall i, j :: 0 <= i < j < |list| ==> list[i] != list[j]
      invariant |list| + |rest| == |s|
      decreases |rest|
    {
      var x :| x in rest;
      list := list + [x];
      rest := rest - {x};
    }
    r := SortByKey(list, key, true);
    SortDistinctKeys(list, key, true);
    SortByKeyCorrect(list, key, true);
    SortByKeyLength(list, key, true);
    forall x
      ensures x in r <==> x in list
    {
      assert x in r <==> x in multiset(r);
      assert x in list <==> x in multiset(list);
    }
  }
}
