/**
  The per-season ranking of the defensive metrics and the average rank.

  The rank column of a metric (data_cleaning.py:116 and 119) gives each row the pandas
  "average" rank of its value among the non-missing values of its season:
  with `k` values strictly better and `t` values equal (itself included),
  the tie group occupies places `k + 1 .. k + t` and every member gets their
  mean, `k + (t + 1) / 2`. A missing value, and a row whose season is
  missing (the group-by drops it), get a missing rank.
 */
module Ranking {
  import opened Wrappers
  import opened Cells

  /** `ascending=False` (a higher value is better) or `ascending=True`. */
  datatype Direction = HigherIsBetter | LowerIsBetter

  /** `x` is strictly better than `y`. */
  predicate Ahead(dir: Direction, x: real, y: real)
  {
    if dir == HigherIsBetter then x > y else x < y
  }

  function CountAhead(vs: seq<real>, x: real, dir: Direction): nat
  {
    if vs == [] then 0 else (if Ahead(dir, vs[0], x) then 1 else 0) + CountAhead(vs[1..], x, dir)
  }

  function CountTied(vs: seq<real>, x: real): nat
  {
    if vs == [] then 0 else (if vs[0] == x then 1 else 0) + CountTied(vs[1..], x)
  }

  function CountBehind(vs: seq<real>, x: real, dir: Direction): nat
  {
    if vs == [] then 0 else (if Ahead(dir, x, vs[0]) then 1 else 0) + CountBehind(vs[1..], x, dir)
  }

  /** The average rank of `x` among the values `vs`. */
  function RankIn(vs: seq<real>, x: real, dir: Direction): real
  {
    CountAhead(vs, x, dir) as real + (CountTied(vs, x) + 1) as real / 2.0
  }

  /** The non-missing values of the rows whose season is `key`, in row order. */
  function SeasonValues(keys: seq<Cell>, vals: seq<Option<real>>, key: Cell): seq<real>
    requires |keys| == |vals|
  {
    if vals == [] then []
    else
      var n := |vals| - 1;
      var front := SeasonValues(keys[..n], vals[..n], key);
      if keys[n] == key && vals[n].Some? then front + [vals[n].value] else front
  }

  /**
    The rank pandas gives row `i`. Seasons are grouped by cell equality, so
    `Int(2013)` and `Real(2013.0)` are different groups, whereas Python
    hashes them as one key; a column read from one CSV file has one type,
    so its season cells are never mixed that way.
   */
  function Rank(keys: seq<Cell>, vals: seq<Option<real>>, dir: Direction, i: nat): Option<real>
    requires |keys| == |vals| && i < |vals|
  {
    if keys[i].Missing? || vals[i].None? then None
    else Some(RankIn(SeasonValues(keys, vals, keys[i]), vals[i].value, dir))
  }

  /** The whole rank column. */
  function RankColumn(keys: seq<Cell>, vals: seq<Option<real>>, dir: Direction): (r: seq<Option<real>>)
    requires |keys| == |vals|
    ensures |r| == |vals|
  {
    seq(|vals|, i requires 0 <= i < |vals| => Rank(keys, vals, dir, i))
  }

  // ---------------------------------------------------------------------
  // Counting

  lemma {:induction false} CountsAppend(xs: seq<real>, ys: seq<real>, x: real, dir: Direction)
    ensures CountAhead(xs + ys, x, dir) == CountAhead(xs, x, dir) + CountAhead(ys, x, dir)
    ensures CountTied(xs + ys, x) == CountTied(xs, x) + CountTied(ys, x)
    ensures CountBehind(xs + ys, x, dir) == CountBehind(xs, x, dir) + CountBehind(ys, x, dir)
  {
    if xs != [] {
      assert (xs + ys)[1..] == xs[1..] + ys;
      CountsAppend(xs[1..], ys, x, dir);
    } else {
      assert xs + ys == ys;
    }
  }

  /** Every value is better than, equal to, or worse than `x`. */
  lemma {:induction false} Trichotomy(vs: seq<real>, x: real, dir: Direction)
    ensures CountAhead(vs, x, dir) + CountTied(vs, x) + CountBehind(vs, x, dir) == |vs|
  {
    if vs != [] {
      Trichotomy(vs[1..], x, dir);
    }
  }

  lemma {:induction false} TiedPositive(vs: seq<real>, x: real)
    requires x in vs
    ensures CountTied(vs, x) >= 1
  {
    if vs[0] != x {
      TiedPositive(vs[1..], x);
    }
  }

  /** Every value tied with or better than `x` is better than anything `x` beats. */
  lemma {:induction false} AheadCounts(vs: seq<real>, x: real, y: real, dir: Direction)
    requires Ahead(dir, x, y)
    ensures CountAhead(vs, y, dir) >= CountAhead(vs, x, dir) + CountTied(vs, x)
  {
    if vs != [] {
      AheadCounts(vs[1..], x, y, dir);
    }
  }

  lemma {:induction false} AllBehind(ws: seq<real>, x: real, dir: Direction)
    ensures CountBehind(ws, x, dir) == |ws| <==> forall k | 0 <= k < |ws| :: Ahead(dir, x, ws[k])
  {
    if ws != [] {
      AllBehind(ws[1..], x, dir);
      Trichotomy(ws[1..], x, dir);
      if forall k | 0 <= k < |ws| :: Ahead(dir, x, ws[k]) {
        forall k | 0 <= k < |ws| - 1 ensures Ahead(dir, x, ws[1..][k]) {
          assert ws[1..][k] == ws[k + 1];
        }
      } else if CountBehind(ws, x, dir) == |ws| {
        assert Ahead(dir, x, ws[0]);
        forall k | 0 <= k < |ws| ensures Ahead(dir, x, ws[k]) {
          if k > 0 {
            assert ws[k] == ws[1..][k - 1];
          }
        }
        assert false;
      }
    }
  }

  // ---------------------------------------------------------------------
  // Ranks among one season's values

  /** A value present in the season has a rank between 1 and the number of values. */
  lemma RankInBounds(vs: seq<real>, x: real, dir: Direction)
    requires x in vs
    ensures 1.0 <= RankIn(vs, x, dir) <= |vs| as real
  {
    TiedPositive(vs, x);
    Trichotomy(vs, x, dir);
  }

  lemma RankInAhead(vs: seq<real>, x: real, y: real, dir: Direction)
    requires x in vs && Ahead(dir, x, y)
    ensures RankIn(vs, x, dir) < RankIn(vs, y, dir)
  {
    TiedPositive(vs, x);
    AheadCounts(vs, x, y, dir);
  }

  /**
    A better value gets a strictly smaller rank and equal values share their
    rank; both directions hold.
   */
  lemma RankInOrder(vs: seq<real>, x: real, y: real, dir: Direction)
    requires x in vs && y in vs
    ensures Ahead(dir, x, y) <==> RankIn(vs, x, dir) < RankIn(vs, y, dir)
    ensures x == y <==> RankIn(vs, x, dir) == RankIn(vs, y, dir)
  {
    if Ahead(dir, x, y) {
      RankInAhead(vs, x, y, dir);
    } else if Ahead(dir, y, x) {
      RankInAhead(vs, y, x, dir);
    }
  }

  /** The value at place `j` gets rank 1 exactly when it beats every other value. */
  lemma RankInFirst(vs: seq<real>, j: nat, dir: Direction)
    requires j < |vs|
    ensures RankIn(vs, vs[j], dir) == 1.0 <==>
            forall k | 0 <= k < |vs| && k != j :: Ahead(dir, vs[j], vs[k])
  {
    var x := vs[j];
    var others := vs[..j] + vs[j + 1..];
    assert vs == vs[..j] + ([x] + vs[j + 1..]);
    CountsAppend(vs[..j], [x] + vs[j + 1..], x, dir);
    CountsAppend([x], vs[j + 1..], x, dir);
    CountsAppend(vs[..j], vs[j + 1..], x, dir);
    assert [x][1..] == [];
    assert CountAhead([x], x, dir) == 0 && CountTied([x], x) == 1;
    assert CountAhead(vs, x, dir) == CountAhead(others, x, dir);
    assert CountTied(vs, x) == CountTied(others, x) + 1;
    Trichotomy(others, x, dir);
    AllBehind(others, x, dir);
    if forall k | 0 <= k < |vs| && k != j :: Ahead(dir, x, vs[k]) {
      forall k | 0 <= k < |others| ensures Ahead(dir, x, others[k]) {
        if k < j {
          assert others[k] == vs[k];
        } else {
          assert others[k] == vs[k + 1];
        }
      }
    }
    if RankIn(vs, x, dir) == 1.0 {
      assert CountBehind(others, x, dir) == |others|;
      forall k | 0 <= k < |vs| && k != j ensures Ahead(dir, x, vs[k]) {
        if k < j {
          assert vs[k] == others[k];
        } else {
          assert vs[k] == others[k - 1];
        }
      }
    }
  }

  // ---------------------------------------------------------------------
  // The ranks of a season add up to 1 + 2 + ... + n

  /** Twice the number of values better than `y`, plus the number equal to it. */
  function Score(xs: seq<real>, y: real, dir: Direction): int
  {
    2 * CountAhead(xs, y, dir) + CountTied(xs, y)
  }

  function ScoreSum(xs: seq<real>, ys: seq<real>, dir: Direction): int
  {
    if ys == [] then 0 else Score(xs, ys[0], dir) + ScoreSum(xs, ys[1..], dir)
  }

  lemma {:induction false} ScoreSumSplit(x: real, xs: seq<real>, ys: seq<real>, dir: Direction)
    ensures ScoreSum([x] + xs, ys, dir) == ScoreSum([x], ys, dir) + ScoreSum(xs, ys, dir)
  {
    if ys != [] {
      ScoreSumSplit(x, xs, ys[1..], dir);
      CountsAppend([x], xs, ys[0], dir);
    }
  }

  lemma PairScore(x: real, y: real, dir: Direction)
    ensures Score([x], y, dir) + Score([y], x, dir) == 2
  {
    assert [x][1..] == [] && [y][1..] == [];
    assert CountAhead([x], y, dir) == if Ahead(dir, x, y) then 1 else 0;
    assert CountAhead([y], x, dir) == if Ahead(dir, y, x) then 1 else 0;
    assert CountTied([x], y) == if x == y then 1 else 0;
    assert CountTied([y], x) == if x == y then 1 else 0;
  }

  /** One value against a sequence: each pair scores 2 in total. */
  lemma {:induction false} ScoreAgainstOne(xs: seq<real>, y: real, dir: Direction)
    ensures Score(xs, y, dir) + ScoreSum([y], xs, dir) == 2 * |xs|
  {
    if xs != [] {
      ScoreAgainstOne(xs[1..], y, dir);
      CountsAppend([xs[0]], xs[1..], y, dir);
      assert [xs[0]] + xs[1..] == xs;
      PairScore(xs[0], y, dir);
      assert ScoreSum([y], xs, dir) == Score([y], xs[0], dir) + ScoreSum([y], xs[1..], dir);
    }
  }

  lemma {:induction false} ScoreSwap(xs: seq<real>, ys: seq<real>, dir: Direction)
    ensures ScoreSum(xs, ys, dir) + ScoreSum(ys, xs, dir) == 2 * |xs| * |ys|
  {
    if ys != [] {
      var y := ys[0];
      var rest := ys[1..];
      ScoreSwap(xs, rest, dir);
      ScoreSumSplit(y, rest, xs, dir);
      assert [y] + rest == ys;
      ScoreAgainstOne(xs, y, dir);
      var a := |xs|;
      var b := |rest|;
      assert ScoreSum(xs, ys, dir) == Score(xs, y, dir) + ScoreSum(xs, rest, dir);
      assert ScoreSum(ys, xs, dir) == ScoreSum([y], xs, dir) + ScoreSum(rest, xs, dir);
      assert ScoreSum(xs, ys, dir) + ScoreSum(ys, xs, dir) == 2 * a * b + 2 * a;
      assert |ys| == b + 1;
      assert 2 * a * (b + 1) == 2 * a * b + 2 * a;
    } else {
      ScoreSumOfNone(xs, dir);
    }
  }

  lemma {:induction false} ScoreSumOfNone(xs: seq<real>, dir: Direction)
    ensures ScoreSum([], xs, dir) == 0
  {
    if xs != [] {
      ScoreSumOfNone(xs[1..], dir);
    }
  }

  /** The ranks of the values `xs` among `vs`. */
  function RanksAmong(vs: seq<real>, xs: seq<real>, dir: Direction): (r: seq<real>)
    ensures |r| == |xs|
  {
    seq(|xs|, i requires 0 <= i < |xs| => RankIn(vs, xs[i], dir))
  }

  function Sum(xs: seq<real>): real
  {
    if xs == [] then 0.0 else xs[0] + Sum(xs[1..])
  }

  lemma {:induction false} SumOfRanks(vs: seq<real>, xs: seq<real>, dir: Direction)
    ensures Sum(RanksAmong(vs, xs, dir)) == (ScoreSum(vs, xs, dir) + |xs|) as real / 2.0
  {
    if xs != [] {
      SumOfRanks(vs, xs[1..], dir);
      assert RanksAmong(vs, xs, dir)[1..] == RanksAmong(vs, xs[1..], dir);
    }
  }

  /** The ranks of the `n` values of a season add up to `n (n + 1) / 2`. */
  lemma RankSum(vs: seq<real>, dir: Direction)
    ensures Sum(RanksAmong(vs, vs, dir)) == (|vs| * (|vs| + 1)) as real / 2.0
  {
    SumOfRanks(vs, vs, dir);
    ScoreSwap(vs, vs, dir);
    var n := |vs|;
    assert n * (n + 1) == n * n + n;
  }

  // ---------------------------------------------------------------------
  // Ranks in the table

  lemma {:induction false} SeasonValuesAppend(k1: seq<Cell>, v1: seq<Option<real>>,
                                              k2: seq<Cell>, v2: seq<Option<real>>, key: Cell)
    requires |k1| == |v1| && |k2| == |v2|
    ensures SeasonValues(k1 + k2, v1 + v2, key) == SeasonValues(k1, v1, key) + SeasonValues(k2, v2, key)
  {
    if v2 == [] {
      assert k1 + k2 == k1 && v1 + v2 == v1;
    } else {
      var n := |v2| - 1;
      SeasonValuesAppend(k1, v1, k2[..n], v2[..n], key);
      var k := k1 + k2;
      var v := v1 + v2;
      assert k[..|k| - 1] == k1 + k2[..n];
      assert v[..|v| - 1] == v1 + v2[..n];
      assert k[|k| - 1] == k2[n] && v[|v| - 1] == v2[n];
    }
  }

  lemma SeasonValuesOne(k: Cell, v: Option<real>, key: Cell)
    ensures SeasonValues([k], [v], key) == if k == key && v.Some? then [v.value] else []
  {
    assert [k][..0] == [] && [v][..0] == [];
  }

  /** The table split around row `i`. */
  lemma SplitAtRow(keys: seq<Cell>, vals: seq<Option<real>>, i: nat, key: Cell)
    requires |keys| == |vals| && i < |vals|
    ensures SeasonValues(keys, vals, key) ==
      SeasonValues(keys[..i], vals[..i], key) + SeasonValues([keys[i]], [vals[i]], key)
        + SeasonValues(keys[i + 1..], vals[i + 1..], key)
  {
    assert keys == keys[..i] + ([keys[i]] + keys[i + 1..]);
    assert vals == vals[..i] + ([vals[i]] + vals[i + 1..]);
    SeasonValuesAppend(keys[..i], vals[..i], [keys[i]] + keys[i + 1..], [vals[i]] + vals[i + 1..], key);
    SeasonValuesAppend([keys[i]], [vals[i]], keys[i + 1..], vals[i + 1..], key);
  }

  /** The season's values are exactly the non-missing values of its rows. */
  lemma {:induction false} SeasonValuesMembers(keys: seq<Cell>, vals: seq<Option<real>>, key: Cell, v: real)
    requires |keys| == |vals|
    ensures v in SeasonValues(keys, vals, key) <==>
            exists j | 0 <= j < |vals| :: keys[j] == key && vals[j] == Some(v)
  {
    if vals != [] {
      var n := |vals| - 1;
      SeasonValuesMembers(keys[..n], vals[..n], key, v);
      if exists j | 0 <= j < |vals| :: keys[j] == key && vals[j] == Some(v) {
        var j :| 0 <= j < |vals| && keys[j] == key && vals[j] == Some(v);
        if j < n {
          assert keys[..n][j] == key && vals[..n][j] == Some(v);
        }
      }
    }
  }

  /** A missing value or season gives a missing rank; otherwise the rank lies in 1..n. */
  lemma RankBounds(keys: seq<Cell>, vals: seq<Option<real>>, dir: Direction, i: nat)
    requires |keys| == |vals| && i < |vals|
    ensures Rank(keys, vals, dir, i).None? <==> keys[i].Missing? || vals[i].None?
    ensures Rank(keys, vals, dir, i).Some? ==>
      1.0 <= Rank(keys, vals, dir, i).value <= |SeasonValues(keys, vals, keys[i])| as real
  {
    if vals[i].Some? && !keys[i].Missing? {
      SeasonValuesMembers(keys, vals, keys[i], vals[i].value);
      RankInBounds(SeasonValues(keys, vals, keys[i]), vals[i].value, dir);
    }
  }

  /** In one season, a better value gets a smaller rank and a tie the same rank, both ways. */
  lemma RankOrder(keys: seq<Cell>, vals: seq<Option<real>>, dir: Direction, i: nat, j: nat)
    requires |keys| == |vals| && i < |vals| && j < |vals|
    requires keys[i] == keys[j] && !keys[i].Missing? && vals[i].Some? && vals[j].Some?
    ensures Ahead(dir, vals[i].value, vals[j].value) <==>
            Rank(keys, vals, dir, i).value < Rank(keys, vals, dir, j).value
    ensures vals[i] == vals[j] <==> Rank(keys, vals, dir, i) == Rank(keys, vals, dir, j)
  {
    var key := keys[i];
    SeasonValuesMembers(keys, vals, key, vals[i].value);
    SeasonValuesMembers(keys, vals, key, vals[j].value);
    RankInOrder(SeasonValues(keys, vals, key), vals[i].value, vals[j].value, dir);
  }

  /** A row ranks first in its season exactly when its value beats every other value there. */
  lemma RankFirst(keys: seq<Cell>, vals: seq<Option<real>>, dir: Direction, i: nat)
    requires |keys| == |vals| && i < |vals| && !keys[i].Missing? && vals[i].Some?
    ensures Rank(keys, vals, dir, i) == Some(1.0) <==>
      forall j | 0 <= j < |vals| && j != i && keys[j] == keys[i] && vals[j].Some? ::
        Ahead(dir, vals[i].value, vals[j].value)
  {
    var key := keys[i];
    var x := vals[i].value;
    var vs := SeasonValues(keys, vals, key);
    var p := |SeasonValues(keys[..i], vals[..i], key)|;
    AroundRow(keys, vals, i);
    assert vs[p] == x;
    RankInFirst(vs, p, dir);
    if forall k | 0 <= k < |vs| && k != p :: Ahead(dir, x, vs[k]) {
      forall j | 0 <= j < |vals| && j != i && keys[j] == key && vals[j].Some?
        ensures Ahead(dir, x, vals[j].value)
      {
        RowInSeason(keys, vals, i, j);
      }
    }
    if forall j | 0 <= j < |vals| && j != i && keys[j] == key && vals[j].Some? :: Ahead(dir, x, vals[j].value) {
      forall k | 0 <= k < |vs| && k != p ensures Ahead(dir, x, vs[k]) {
        SeasonEntryRow(keys, vals, i, k);
      }
    }
  }

  /** The season values are those before row `i`, its own, and those after it. */
  lemma {:induction false} AroundRow(keys: seq<Cell>, vals: seq<Option<real>>, i: nat)
    requires |keys| == |vals| && i < |vals| && vals[i].Some?
    ensures var key := keys[i];
      SeasonValues(keys, vals, key) ==
        SeasonValues(keys[..i], vals[..i], key) + [vals[i].value] + SeasonValues(keys[i + 1..], vals[i + 1..], key)
  {
    SplitAtRow(keys, vals, i, keys[i]);
    SeasonValuesOne(keys[i], vals[i], keys[i]);
  }

  /** Another row of the season contributes a value at a place other than row `i`'s. */
  lemma {:induction false} RowInSeason(keys: seq<Cell>, vals: seq<Option<real>>, i: nat, j: nat)
    requires |keys| == |vals| && i < |vals| && vals[i].Some?
    requires j < |vals| && j != i && keys[j] == keys[i] && vals[j].Some?
    ensures exists k | 0 <= k < |SeasonValues(keys, vals, keys[i])| && k != |SeasonValues(keys[..i], vals[..i], keys[i])| ::
      SeasonValues(keys, vals, keys[i])[k] == vals[j].value
  {
    var key := keys[i];
    var v := vals[j].value;
    var pre := SeasonValues(keys[..i], vals[..i], key);
    var post := SeasonValues(keys[i + 1..], vals[i + 1..], key);
    var vs := SeasonValues(keys, vals, key);
    AroundRow(keys, vals, i);
    if j < i {
      SeasonValuesMembers(keys[..i], vals[..i], key, v);
      assert keys[..i][j] == key && vals[..i][j] == Some(v);
      var k :| 0 <= k < |pre| && pre[k] == v;
      assert vs[k] == v;
    } else {
      SeasonValuesMembers(keys[i + 1..], vals[i + 1..], key, v);
      assert keys[i + 1..][j - i - 1] == key && vals[i + 1..][j - i - 1] == Some(v);
      var k :| 0 <= k < |post| && post[k] == v;
      assert vs[|pre| + 1 + k] == v;
    }
  }

  /** Every value of the season other than row `i`'s comes from another row of that season. */
  lemma {:induction false} SeasonEntryRow(keys: seq<Cell>, vals: seq<Option<real>>, i: nat, k: nat)
    requires |keys| == |vals| && i < |vals| && vals[i].Some?
    requires k < |SeasonValues(keys, vals, keys[i])| && k != |SeasonValues(keys[..i], vals[..i], keys[i])|
    ensures exists j | 0 <= j < |vals| && j != i && keys[j] == keys[i] ::
      vals[j] == Some(SeasonValues(keys, vals, keys[i])[k])
  {
    var key := keys[i];
    var pre := SeasonValues(keys[..i], vals[..i], key);
    var post := SeasonValues(keys[i + 1..], vals[i + 1..], key);
    var vs := SeasonValues(keys, vals, key);
    AroundRow(keys, vals, i);
    var p := |pre|;
    if k < p {
      assert vs[k] == pre[k];
      SeasonValuesMembers(keys[..i], vals[..i], key, pre[k]);
      var j :| 0 <= j < i && keys[..i][j] == key && vals[..i][j] == Some(pre[k]);
      assert keys[j] == key && vals[j] == Some(pre[k]);
    } else {
      var v := post[k - p - 1];
      assert vs[k] == v;
      SeasonValuesMembers(keys[i + 1..], vals[i + 1..], key, v);
      var j :| 0 <= j < |vals| - i - 1 && keys[i + 1..][j] == key && vals[i + 1..][j] == Some(v);
      assert keys[i + 1 + j] == key && vals[i + 1 + j] == Some(v);
    }
  }

  /** The ranks of a season, read back from the rank column, are the ranks of its values. */
  lemma {:induction false} RanksOfSeasonPrefix(keys: seq<Cell>, vals: seq<Option<real>>, dir: Direction,
                                               key: Cell, m: nat)
    requires |keys| == |vals| && m <= |vals| && !key.Missing?
    ensures SeasonValues(keys[..m], RankColumn(keys, vals, dir)[..m], key) ==
            RanksAmong(SeasonValues(keys, vals, key), SeasonValues(keys[..m], vals[..m], key), dir)
  {
    var g := SeasonValues(keys, vals, key);
    var rc := RankColumn(keys, vals, dir);
    if m > 0 {
      var n := m - 1;
      RanksOfSeasonPrefix(keys, vals, dir, key, n);
      assert keys[..m][..n] == keys[..n];
      assert vals[..m][..n] == vals[..n];
      assert rc[..m][..n] == rc[..n];
      var front := SeasonValues(keys[..n], vals[..n], key);
      if keys[n] == key && vals[n].Some? {
        assert RanksAmong(g, front + [vals[n].value], dir) ==
               RanksAmong(g, front, dir) + [RankIn(g, vals[n].value, dir)];
      }
    }
  }

  /** The ranks written for one season add up to `n (n + 1) / 2` for its `n` non-missing values. */
  lemma RankColumnSum(keys: seq<Cell>, vals: seq<Option<real>>, dir: Direction, key: Cell)
    requires |keys| == |vals| && !key.Missing?
    ensures var n := |SeasonValues(keys, vals, key)|;
      Sum(SeasonValues(keys, RankColumn(keys, vals, dir), key)) == (n * (n + 1)) as real / 2.0
  {
    RanksOfSeasonPrefix(keys, vals, dir, key, |vals|);
    assert keys[..|vals|] == keys && vals[..|vals|] == vals;
    assert RankColumn(keys, vals, dir)[..|vals|] == RankColumn(keys, vals, dir);
    RankSum(SeasonValues(keys, vals, key), dir);
  }

  /** Rows of other seasons, before or after, leave a row's rank as it is. */
  lemma RankLocality(k1: seq<Cell>, v1: seq<Option<real>>, k2: seq<Cell>, v2: seq<Option<real>>,
                     dir: Direction, i: nat)
    requires |k1| == |v1| && |k2| == |v2| && i < |v1|
    requires forall j | 0 <= j < |k2| :: k2[j] != k1[i]
    ensures Rank(k1 + k2, v1 + v2, dir, i) == Rank(k1, v1, dir, i)
    ensures Rank(k2 + k1, v2 + v1, dir, |v2| + i) == Rank(k1, v1, dir, i)
  {
    var key := k1[i];
    SeasonValuesAppend(k1, v1, k2, v2, key);
    SeasonValuesAppend(k2, v2, k1, v1, key);
    NoSeasonValues(k2, v2, key);
    assert SeasonValues(k1 + k2, v1 + v2, key) == SeasonValues(k1, v1, key);
    assert SeasonValues(k2 + k1, v2 + v1, key) == SeasonValues(k1, v1, key);
    assert (k1 + k2)[i] == key && (v1 + v2)[i] == v1[i];
    assert (k2 + k1)[|v2| + i] == key && (v2 + v1)[|v2| + i] == v1[i];
  }

  lemma {:induction false} NoSeasonValues(keys: seq<Cell>, vals: seq<Option<real>>, key: Cell)
    requires |keys| == |vals| && forall j | 0 <= j < |keys| :: keys[j] != key
    ensures SeasonValues(keys, vals, key) == []
  {
    if vals != [] {
      var n := |vals| - 1;
      assert keys[n] != key;
      NoSeasonValues(keys[..n], vals[..n], key);
    }
  }

  // ---------------------------------------------------------------------
  // The average rank of a row (data_cleaning.py:126)

  /** The non-missing entries, in order. */
  function Present(rs: seq<Option<real>>): (xs: seq<real>)
    ensures |xs| <= |rs|
  {
    if rs == [] then []
    else (if rs[0].Some? then [rs[0].value] else []) + Present(rs[1..])
  }

  /** The mean of a row's rank cells, skipping missing ones; missing when all are. */
  function AverageRank(rs: seq<Option<real>>): Option<real>
  {
    var xs := Present(rs);
    if xs == [] then None else Some(Sum(xs) / |xs| as real)
  }

  lemma {:induction false} PresentAppend(a: seq<Option<real>>, b: seq<Option<real>>)
    ensures Present(a + b) == Present(a) + Present(b)
  {
    if a != [] {
      assert (a + b)[1..] == a[1..] + b;
      PresentAppend(a[1..], b);
    } else {
      assert a + b == b;
    }
  }

  lemma {:induction false} PresentEmpty(rs: seq<Option<real>>)
    ensures Present(rs) == [] <==> forall k | 0 <= k < |rs| :: rs[k].None?
  {
    if rs != [] {
      PresentEmpty(rs[1..]);
      if forall k | 0 <= k < |rs| :: rs[k].None? {
        forall k | 0 <= k < |rs| - 1 ensures rs[1..][k].None? {
          assert rs[1..][k] == rs[k + 1];
        }
      } else if rs[0].None? {
        var k :| 0 <= k < |rs| && rs[k].Some?;
        assert rs[1..][k - 1] == rs[k];
      }
    }
  }

  /** The average is missing exactly when every rank of the row is missing. */
  lemma AverageMissing(rs: seq<Option<real>>)
    ensures AverageRank(rs).None? <==> forall k | 0 <= k < |rs| :: rs[k].None?
  {
    PresentEmpty(rs);
  }

  /** Missing entries anywhere leave the average as it is. */
  lemma AverageSkipsMissing(a: seq<Option<real>>, b: seq<Option<real>>)
    ensures AverageRank(a + [None] + b) == AverageRank(a + b)
  {
    var none: seq<Option<real>> := [None];
    assert a + none + b == a + (none + b);
    PresentAppend(a, none + b);
    PresentAppend(none, b);
    assert none[1..] == [];
    assert Present(none) == [];
    PresentAppend(a, b);
    assert Present(a + none + b) == Present(a + b);
  }

  /** With no missing entry the average is the plain mean of the entries. */
  lemma {:induction false} AverageAllPresent(rs: seq<real>)
    requires |rs| > 0
    ensures AverageRank(seq(|rs|, k requires 0 <= k < |rs| => Some(rs[k]))) == Some(Sum(rs) / |rs| as real)
  {
    PresentOfSome(rs);
  }

  lemma {:induction false} PresentOfSome(rs: seq<real>)
    ensures Present(seq(|rs|, k requires 0 <= k < |rs| => Some(rs[k]))) == rs
  {
    var w := seq(|rs|, k requires 0 <= k < |rs| => Some(rs[k]));
    if rs != [] {
      PresentOfSome(rs[1..]);
      assert w[1..] == seq(|rs| - 1, k requires 0 <= k < |rs| - 1 => Some(rs[1..][k]));
      assert [rs[0]] + rs[1..] == rs;
    }
  }

  lemma {:induction false} SumBounds(xs: seq<real>, lo: real, hi: real)
    requires forall k | 0 <= k < |xs| :: lo <= xs[k] <= hi
    ensures |xs| as real * lo <= Sum(xs) <= |xs| as real * hi
  {
    if xs != [] {
      assert forall k | 0 <= k < |xs| - 1 :: xs[1..][k] == xs[k + 1];
      SumBounds(xs[1..], lo, hi);
    }
  }

  lemma {:induction false} PresentMembers(rs: seq<Option<real>>, k: nat)
    requires k < |Present(rs)|
    ensures exists j | 0 <= j < |rs| :: rs[j] == Some(Present(rs)[k])
  {
    if rs[0].Some? && k == 0 {
      assert rs[0] == Some(Present(rs)[0]);
    } else {
      var k' := if rs[0].Some? then k - 1 else k;
      assert Present(rs)[k] == Present(rs[1..])[k'];
      PresentMembers(rs[1..], k');
      var j :| 0 <= j < |rs| - 1 && rs[1..][j] == Some(Present(rs[1..])[k']);
      assert rs[j + 1] == rs[1..][j];
    }
  }

  /** When every present rank lies in `lo..hi`, so does the average. */
  lemma AverageBounds(rs: seq<Option<real>>, lo: real, hi: real)
    requires forall k | 0 <= k < |rs| && rs[k].Some? :: lo <= rs[k].value <= hi
    ensures AverageRank(rs).Some? ==> lo <= AverageRank(rs).value <= hi
  {
    var xs := Present(rs);
    if xs != [] {
      forall k | 0 <= k < |xs| ensures lo <= xs[k] <= hi {
        PresentMembers(rs, k);
      }
      SumBounds(xs, lo, hi);
      var n := |xs| as real;
      assert n * lo <= Sum(xs) <= n * hi;
      assert n > 0.0;
      DivideBounds(Sum(xs), n, lo, hi);
    }
  }

  lemma DivideBounds(s: real, n: real, lo: real, hi: real)
    requires n > 0.0 && n * lo <= s <= n * hi
    ensures lo <= s / n <= hi
  {
    assert s / n * n == s;
  }

}
