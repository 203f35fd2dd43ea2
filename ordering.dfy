/**
  The final sort of the ranking section (data_cleaning.py:128): a stable sort
  by two keys, most recent season first (season labels compare as Python
  strings), then the best average rank first, with a missing key placed last
  for either column.
 */
module Ordering {
  import opened Wrappers
  import opened Cells

  /** Python's `<` on strings: lexicographic by character code. */
  predicate StrLess(a: string, b: string)
  {
    if b == [] then false
    else if a == [] then true
    else if a[0] != b[0] then a[0] < b[0]
    else StrLess(a[1..], b[1..])
  }

  lemma {:induction false} StrLessIrreflexive(a: string)
    ensures !StrLess(a, a)
  {
    if a != [] {
      StrLessIrreflexive(a[1..]);
    }
  }

  lemma {:induction false} StrLessTransitive(a: string, b: string, c: string)
    requires StrLess(a, b) && StrLess(b, c)
    ensures StrLess(a, c)
  {
    if a != [] && a[0] == b[0] && b[0] == c[0] {
      StrLessTransitive(a[1..], b[1..], c[1..]);
    }
  }

  lemma {:induction false} StrLessTotal(a: string, b: string)
    requires a != b
    ensures StrLess(a, b) || StrLess(b, a)
  {
    if a != [] && b != [] && a[0] == b[0] {
      assert a == [a[0]] + a[1..] && b == [b[0]] + b[1..];
      StrLessTotal(a[1..], b[1..]);
    }
  }

  /** The two sort columns of a row: its season label and its average rank. */
  datatype SortKey = SortKey(season: Option<string>, average: Option<real>)

  /** `ascending=False` with missing labels last. */
  predicate SeasonBefore(a: Option<string>, b: Option<string>)
  {
    match (a, b)
    case (Some(x), Some(y)) => StrLess(y, x)
    case (Some(_), None) => true
    case _ => false
  }

  /** `ascending=True` with missing averages last. */
  predicate AverageBefore(a: Option<real>, b: Option<real>)
  {
    match (a, b)
    case (Some(x), Some(y)) => x < y
    case (Some(_), None) => true
    case _ => false
  }

  /** A row with key `x` goes strictly before one with key `y`. */
  predicate Before(x: SortKey, y: SortKey)
  {
    SeasonBefore(x.season, y.season) || (x.season == y.season && AverageBefore(x.average, y.average))
  }

  lemma BeforeTransitive(x: SortKey, y: SortKey, z: SortKey)
    requires Before(x, y) && Before(y, z)
    ensures Before(x, z)
  {
    if x.season.Some? && y.season.Some? && z.season.Some? {
      var a, b, c := x.season.value, y.season.value, z.season.value;
      if StrLess(b, a) && StrLess(c, b) {
        StrLessTransitive(c, b, a);
      }
    }
  }

  /** The order is strict and total on keys: of two different keys, exactly one goes first. */
  lemma BeforeStrictTotal(x: SortKey, y: SortKey)
    ensures !Before(x, x)
    ensures x != y ==> (Before(x, y) || Before(y, x))
    ensures !(Before(x, y) && Before(y, x))
  {
    if x.season.Some? {
      StrLessIrreflexive(x.season.value);
    }
    if x.season.Some? && y.season.Some? && x.season != y.season {
      StrLessTotal(x.season.value, y.season.value);
    }
    if Before(x, y) && Before(y, x) {
      BeforeTransitive(x, y, x);
    }
  }

  /** Insertion of a later element: it goes after every element whose key is not after its own. */
  function Insert<T>(x: T, s: seq<T>, key: T -> SortKey): (r: seq<T>)
    ensures multiset(r) == multiset(s) + multiset{x}
  {
    if s == [] then [x]
    else if Before(key(x), key(s[0])) then [x] + s
    else
      assert s == [s[0]] + s[1..];
      [s[0]] + Insert(x, s[1..], key)
  }

  /** The stable sort by `key`. */
  function SortBy<T>(xs: seq<T>, key: T -> SortKey): (r: seq<T>)
    ensures multiset(r) == multiset(xs)
  {
    if xs == [] then []
    else
      var n := |xs| - 1;
      assert xs == xs[..n] + [xs[n]];
      Insert(xs[n], SortBy(xs[..n], key), key)
  }

  predicate Sorted<T>(s: seq<T>, key: T -> SortKey)
  {
    forall i, j | 0 <= i < j < |s| :: !Before(key(s[j]), key(s[i]))
  }

  /** The elements of `s` whose key is `k`, in order. */
  function WithKey<T>(s: seq<T>, key: T -> SortKey, k: SortKey): seq<T>
  {
    if s == [] then [] else (if key(s[0]) == k then [s[0]] else []) + WithKey(s[1..], key, k)
  }

  lemma {:induction false} InsertSorted<T>(x: T, s: seq<T>, key: T -> SortKey)
    requires Sorted(s, key)
    ensures Sorted(Insert(x, s, key), key)
  {
    if s != [] && !Before(key(x), key(s[0])) {
      var rest := Insert(x, s[1..], key);
      InsertSorted(x, s[1..], key);
      var r := [s[0]] + rest;
      forall j | 0 < j < |r| ensures !Before(key(r[j]), key(r[0])) {
        assert r[j] in multiset(rest);
        assert r[j] in multiset(s[1..]) || r[j] == x;
        if r[j] != x {
          var m :| 0 <= m < |s[1..]| && s[1..][m] == r[j];
          assert s[m + 1] == r[j];
        }
      }
      forall i, j | 0 <= i < j < |r| ensures !Before(key(r[j]), key(r[i])) {
        if i > 0 {
          assert r[i] == rest[i - 1] && r[j] == rest[j - 1];
        }
      }
    } else if s != [] {
      var r := [x] + s;
      forall i, j | 0 <= i < j < |r| ensures !Before(key(r[j]), key(r[i])) {
        if i == 0 {
          assert r[j] == s[j - 1];
          if Before(key(s[j - 1]), key(x)) {
            BeforeTransitive(key(s[j - 1]), key(x), key(s[0]));
            BeforeStrictTotal(key(s[0]), key(s[0]));
          }
        } else {
          assert r[i] == s[i - 1] && r[j] == s[j - 1];
        }
      }
    }
  }

  /** The sort puts the rows in the required order. */
  lemma {:induction false} SortBySorted<T>(xs: seq<T>, key: T -> SortKey)
    ensures Sorted(SortBy(xs, key), key)
  {
    if xs != [] {
      var n := |xs| - 1;
      SortBySorted(xs[..n], key);
      InsertSorted(xs[n], SortBy(xs[..n], key), key);
    }
  }

  lemma {:induction false} WithKeyAppend<T>(a: seq<T>, b: seq<T>, key: T -> SortKey, k: SortKey)
    ensures WithKey(a + b, key, k) == WithKey(a, key, k) + WithKey(b, key, k)
  {
    if a != [] {
      assert (a + b)[1..] == a[1..] + b;
      WithKeyAppend(a[1..], b, key, k);
    } else {
      assert a + b == b;
    }
  }

  lemma {:induction false} WithKeyNone<T>(s: seq<T>, key: T -> SortKey, k: SortKey)
    requires forall i | 0 <= i < |s| :: key(s[i]) != k
    ensures WithKey(s, key, k) == []
  {
    if s != [] {
      WithKeyNone(s[1..], key, k);
    }
  }

  lemma {:induction false} InsertWithKey<T>(x: T, s: seq<T>, key: T -> SortKey, k: SortKey)
    requires Sorted(s, key)
    ensures WithKey(Insert(x, s, key), key, k) == WithKey(s, key, k) + (if key(x) == k then [x] else [])
  {
    if s == [] {
    } else if Before(key(x), key(s[0])) {
      if key(x) == k {
        forall i | 0 <= i < |s| ensures key(s[i]) != k {
          BeforeStrictTotal(key(s[0]), key(s[0]));
        }
        WithKeyNone(s, key, k);
      }
      WithKeyAppend([x], s, key, k);
    } else {
      assert Sorted(s[1..], key);
      InsertWithKey(x, s[1..], key, k);
    }
  }

  /** Rows with equal keys keep their original relative order. */
  lemma {:induction false} SortByStable<T>(xs: seq<T>, key: T -> SortKey, k: SortKey)
    ensures WithKey(SortBy(xs, key), key, k) == WithKey(xs, key, k)
  {
    if xs != [] {
      var n := |xs| - 1;
      var front := xs[..n];
      var sorted := SortBy(front, key);
      assert SortBy(xs, key) == Insert(xs[n], sorted, key);
      SortByStable(front, key, k);
      SortBySorted(front, key);
      InsertWithKey(xs[n], sorted, key, k);
      assert xs == front + [xs[n]];
      WithKeyAppend(front, [xs[n]], key, k);
      WithKeyOne(xs[n], key, k);
    }
  }

  lemma WithKeyOne<T>(x: T, key: T -> SortKey, k: SortKey)
    ensures WithKey([x], key, k) == if key(x) == k then [x] else []
  {
    assert [x][1..] == [];
  }

  /** The sort key of a row, from the positions of its `Season` and `average_rank` cells. */
  function RowKey(row: seq<Cell>, season: nat, average: nat): SortKey
  {
    SortKey(
      if season < |row| && row[season].Text? then Some(row[season].s) else None,
      if average < |row| then NumberOf(row[average]) else None)
  }

}
