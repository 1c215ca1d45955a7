/** The two orderings the script asks of Python and pandas: `sorted(set(xs))` (sorted distinct
    values) and a stable sort of table rows by a numeric key, which is what `sort_values` on one
    column and `nlargest(n, column)` with `keep='first'` amount to. */
module Sorting {
  import opened Collections

  ghost predicate StrictTotalOrder<T(!new)>(lt: (T, T) -> bool)
  {
    && (forall a, b :: lt(a, b) ==> !lt(b, a))
    && (forall a, b, c :: lt(a, b) && lt(b, c) ==> lt(a, c))
    && (forall a, b :: a != b ==> lt(a, b) || lt(b, a))
  }

  /** Every element is `lt` every later one: sorted, and therefore free of duplicates. */
  predicate StrictlyIncreasing<T>(s: seq<T>, lt: (T, T) -> bool)
  {
    forall i, j :: 0 <= i < j < |s| ==> lt(s[i], s[j])
  }

  /** Adds `x` to a strictly increasing sequence unless it is already there. */
  function InsertUnique<T(!new,==)>(s: seq<T>, x: T, lt: (T, T) -> bool): (r: seq<T>)
    requires StrictTotalOrder(lt) && StrictlyIncreasing(s, lt)
    ensures StrictlyIncreasing(r, lt)
    ensures forall y :: y in r <==> y in s || y == x
  {
    if s == [] then [x]
    else if x == s[0] then s
    else if lt(x, s[0]) then [x] + s
    else
      var rest := InsertUnique(s[1..], x, lt);
      assert forall y :: y in rest ==> lt(s[0], y) by {
        forall y | y in rest ensures lt(s[0], y) {
          if y != x {
            var j :| 1 <= j < |s| && s[j] == y;
          }
        }
      }
      [s[0]] + rest
  }

  /** Python's `sorted(set(s))` under the order `lt`. */
  function SortedUnique<T(!new,==)>(s: seq<T>, lt: (T, T) -> bool): (r: seq<T>)
    requires StrictTotalOrder(lt)
    ensures StrictlyIncreasing(r, lt)
    ensures forall y :: y in r <==> y in s
  {
    if s == [] then []
    else
      var init := SortedUnique(s[..|s| - 1], lt);
      assert s == s[..|s| - 1] + [s[|s| - 1]];
      InsertUnique(init, s[|s| - 1], lt)
  }

  /** A strictly increasing sequence is determined by its elements. */
  lemma {:induction false} StrictlyIncreasingUnique<T(!new)>(a: seq<T>, b: seq<T>, lt: (T, T) -> bool)
    requires StrictTotalOrder(lt)
    requires StrictlyIncreasing(a, lt) && StrictlyIncreasing(b, lt)
    requires forall y :: y in a <==> y in b
    ensures a == b
  {
    assert a != [] ==> a[0] in a;
    assert b != [] ==> b[0] in b;
    if a != [] && b != [] {
      var i :| 0 <= i < |a| && a[i] == b[0];
      var j :| 0 <= j < |b| && b[j] == a[0];
      assert a[0] == b[0];
      forall y ensures y in a[1..] <==> y in b[1..] {
        if y in a[1..] {
          var k :| 0 <= k < |a[1..]| && a[1..][k] == y;
          assert lt(a[0], a[k + 1]) && y in a;
          var m :| 0 <= m < |b| && b[m] == y;
          assert m != 0;
          assert b[1..][m - 1] == y;
        }
        if y in b[1..] {
          var k :| 0 <= k < |b[1..]| && b[1..][k] == y;
          assert lt(b[0], b[k + 1]) && y in b;
          var m :| 0 <= m < |a| && a[m] == y;
          assert m != 0;
          assert a[1..][m - 1] == y;
        }
      }
      StrictlyIncreasingUnique(a[1..], b[1..], lt);
      assert a == [a[0]] + a[1..] && b == [b[0]] + b[1..];
    }
  }

  /** `sorted(set(s))` leaves a sequence that is already sorted and distinct unchanged. */
  lemma SortedUniqueOfIncreasing<T(!new)>(s: seq<T>, lt: (T, T) -> bool)
    requires StrictTotalOrder(lt) && StrictlyIncreasing(s, lt)
    ensures SortedUnique(s, lt) == s
  {
    StrictlyIncreasingUnique(SortedUnique(s, lt), s, lt);
  }

  /** A comprehension that drops elements keeps a strictly increasing sequence strictly increasing. */
  lemma {:induction false} KeepIncreasing<T(!new)>(s: seq<T>, p: T -> bool, lt: (T, T) -> bool)
    requires StrictlyIncreasing(s, lt)
    ensures StrictlyIncreasing(Keep(s, p), lt)
  {
    if s != [] {
      KeepIncreasing(s[1..], p, lt);
      var rest := Keep(s[1..], p);
      forall y | y in rest ensures lt(s[0], y) {
        var k :| 0 <= k < |s[1..]| && s[1..][k] == y;
        assert s[k + 1] == y;
      }
    }
  }

  /** Sorted by `key`, ascending, ties allowed. */
  predicate SortedBy<T>(s: seq<T>, key: T -> real)
  {
    forall i, j :: 0 <= i < j < |s| ==> key(s[i]) <= key(s[j])
  }

  /** Putting an element in front of a sorted sequence whose keys are all at least its own
      keeps it sorted. */
  lemma ConsSorted<T>(h: T, rest: seq<T>, key: T -> real)
    requires SortedBy(rest, key)
    requires forall y :: y in rest ==> key(h) <= key(y)
    ensures SortedBy([h] + rest, key)
  {
    var r := [h] + rest;
    forall i, j | 0 <= i < j < |r| ensures key(r[i]) <= key(r[j]) {
      assert r[j] == rest[j - 1] && rest[j - 1] in rest;
      if i > 0 {
        assert r[i] == rest[i - 1];
      }
    }
  }

  /** Every element of a sorted sequence after the first has a key at least the first's. */
  lemma TailAboveHead<T>(s: seq<T>, key: T -> real)
    requires SortedBy(s, key) && s != []
    ensures forall y :: y in s[1..] ==> key(s[0]) <= key(y)
  {
    forall y | y in s[1..] ensures key(s[0]) <= key(y) {
      var j :| 0 <= j < |s[1..]| && s[1..][j] == y;
      assert s[j + 1] == y;
    }
  }

  /** Inserts `x` after every element whose key is at most `key(x)`. */
  function InsertBy<T(!new)>(s: seq<T>, x: T, key: T -> real): (r: seq<T>)
    requires SortedBy(s, key)
    ensures SortedBy(r, key)
    ensures forall y :: y in r ==> y in s || y == x
    ensures multiset(r) == multiset(s) + multiset{x}
  {
    if s == [] then [x]
    else if key(x) < key(s[0]) then
      TailAboveHead([x] + s, key);
      [x] + s
    else
      var rest := InsertBy(s[1..], x, key);
      TailAboveHead(s, key);
      ConsSorted(s[0], rest, key);
      assert s == [s[0]] + s[1..];
      assert multiset([s[0]] + rest) == multiset{s[0]} + multiset(rest);
      [s[0]] + rest
  }

  /** A stable sort by `key`: insertion of each element, in order, after its equals. */
  function SortBy<T(!new)>(s: seq<T>, key: T -> real): (r: seq<T>)
    ensures SortedBy(r, key)
    ensures multiset(r) == multiset(s)
    ensures |r| == |s|
  {
    if s == [] then []
    else
      var init := SortBy(s[..|s| - 1], key);
      assert s == s[..|s| - 1] + [s[|s| - 1]];
      var r := InsertBy(init, s[|s| - 1], key);
      assert |r| == |multiset(r)|;
      r
  }

  /** The elements of `s` whose key is `v`, in their order in `s`. */
  function WithKey<T(!new)>(s: seq<T>, key: T -> real, v: real): (r: seq<T>)
    ensures forall x :: x in r <==> x in s && key(x) == v
  {
    if s == [] then []
    else if key(s[0]) == v then [s[0]] + WithKey(s[1..], key, v)
    else WithKey(s[1..], key, v)
  }

  lemma {:induction false} WithKeyNone<T(!new)>(s: seq<T>, key: T -> real, v: real)
    requires forall y :: y in s ==> key(y) != v
    ensures WithKey(s, key, v) == []
  {
    if s != [] {
      WithKeyNone(s[1..], key, v);
    }
  }

  lemma {:induction false} WithKeyAppend<T(!new)>(s: seq<T>, t: seq<T>, key: T -> real, v: real)
    ensures WithKey(s + t, key, v) == WithKey(s, key, v) + WithKey(t, key, v)
  {
    if s != [] {
      assert (s + t)[1..] == s[1..] + t;
      WithKeyAppend(s[1..], t, key, v);
    } else {
      assert s + t == t;
    }
  }

  lemma {:induction false} InsertByWithKey<T(!new)>(s: seq<T>, x: T, key: T -> real, v: real)
    requires SortedBy(s, key)
    ensures WithKey(InsertBy(s, x, key), key, v)
         == WithKey(s, key, v) + (if key(x) == v then [x] else [])
  {
    if s == [] {
      assert [x][1..] == [];
    } else if key(x) < key(s[0]) {
      var r := [x] + s;
      assert InsertBy(s, x, key) == r && r[1..] == s;
      if key(x) == v {
        BelowFirstKeyAbsent(s, key, v);
      }
    } else {
      InsertByWithKey(s[1..], x, key, v);
      var r := [s[0]] + InsertBy(s[1..], x, key);
      assert InsertBy(s, x, key) == r && r[1..] == InsertBy(s[1..], x, key);
    }
  }

  /** In a sorted sequence no element has a key below the first one's. */
  lemma BelowFirstKeyAbsent<T(!new)>(s: seq<T>, key: T -> real, v: real)
    requires SortedBy(s, key) && s != [] && v < key(s[0])
    ensures WithKey(s, key, v) == []
  {
    forall y | y in s ensures key(y) != v {
      var j :| 0 <= j < |s| && s[j] == y;
      assert key(s[0]) <= key(s[j]);
    }
    WithKeyNone(s, key, v);
  }

  /** Stability: among elements with equal keys, `SortBy` keeps the input order. */
  lemma {:induction false} SortByStable<T(!new)>(s: seq<T>, key: T -> real, v: real)
    ensures WithKey(SortBy(s, key), key, v) == WithKey(s, key, v)
  {
    if s != [] {
      var init := s[..|s| - 1];
      var x := s[|s| - 1];
      assert s[..|s| - 1] == init;
      var extra := if key(x) == v then [x] else [];
      calc {
        WithKey(SortBy(s, key), key, v);
        WithKey(InsertBy(SortBy(init, key), x, key), key, v);
        { InsertByWithKey(SortBy(init, key), x, key, v); }
        WithKey(SortBy(init, key), key, v) + extra;
        { SortByStable(init, key, v); }
        WithKey(init, key, v) + extra;
        { assert [x][1..] == []; }
        WithKey(init, key, v) + WithKey([x], key, v);
        { WithKeyAppend(init, [x], key, v); }
        WithKey(init + [x], key, v);
        { assert s == init + [x]; }
        WithKey(s, key, v);
      }
    }
  }

  /** Taking a prefix keeps, for each key, a prefix of the elements with that key. */
  lemma {:induction false} WithKeyOfPrefix<T(!new)>(s: seq<T>, n: nat, key: T -> real, v: real)
    requires n <= |s|
    ensures WithKey(s[..n], key, v) <= WithKey(s, key, v)
  {
    assert s == s[..n] + s[n..];
    WithKeyAppend(s[..n], s[n..], key, v);
  }

  /** The first `n` elements of the stable sort (all of them when there are fewer). */
  function SortedPrefix<T(!new)>(s: seq<T>, key: T -> real, n: nat): seq<T>
  {
    var sorted := SortBy(s, key);
    sorted[..if n <= |sorted| then n else |sorted|]
  }

  /** A prefix of the stable sort keeps, for each key, the first elements of `s` with that key. */
  lemma SortedPrefixStable<T(!new)>(s: seq<T>, key: T -> real, n: nat, v: real)
    ensures WithKey(SortedPrefix(s, key, n), key, v) <= WithKey(s, key, v)
  {
    var sorted := SortBy(s, key);
    WithKeyOfPrefix(sorted, if n <= |sorted| then n else |sorted|, key, v);
    SortByStable(s, key, v);
  }
}
