/**
 * The table operations the analyzers and the portfolio share, on a table
 * modelled as a sequence of rows and a column as a sequence of reals:
 * pandas' `nlargest`/`nsmallest` with `keep='first'`, boolean-mask
 * filtering, `iloc[0]` of a filtered frame, and `sum`/`mean` of a column.
 * Rows are named by their position in the table.
 */
module Selection {
  import opened Wrappers

  /** A column of the table: `f` applied to every row, in row order. */
  function Column<T>(rows: seq<T>, f: T -> real): (r: seq<real>)
    ensures |r| == |rows|
    ensures forall i | 0 <= i < |rows| :: r[i] == f(rows[i])
  {
    seq(|rows|, i requires 0 <= i < |rows| => f(rows[i]))
  }

  /** Appending a row appends its value to every column. */
  lemma ColumnAppend<T>(rows: seq<T>, x: T, f: T -> real)
    ensures Column(rows + [x], f) == Column(rows, f) + [f(x)]
  {
    assert forall i | 0 <= i < |rows| :: (rows + [x])[i] == rows[i];
  }

  // ---------------------------------------------------------------------
  // Ranking
  // ---------------------------------------------------------------------

  /**
   * Row `i` ranks before row `j` in `nlargest`: its key is larger, or the
   * keys tie and `i` comes first (`keep='first'`). This is a strict total
   * order on the rows.
   */
  predicate Ahead(keys: seq<real>, i: nat, j: nat) {
    i < |keys| && j < |keys| && (keys[i] > keys[j] || (keys[i] == keys[j] && i < j))
  }

  lemma AheadTotal(keys: seq<real>, i: nat, j: nat)
    requires i < |keys| && j < |keys| && i != j
    ensures Ahead(keys, i, j) || Ahead(keys, j, i)
    ensures !(Ahead(keys, i, j) && Ahead(keys, j, i))
  {
  }

  /** Every entry names a row. */
  predicate Rows(keys: seq<real>, s: seq<nat>) {
    forall a | 0 <= a < |s| :: s[a] < |keys|
  }

  /** Each entry ranks strictly before every later one (so none repeats). */
  predicate Ranked(keys: seq<real>, s: seq<nat>) {
    forall a, b | 0 <= a < b < |s| :: Ahead(keys, s[a], s[b])
  }

  /** How many rows `nlargest(n)` returns: none for `n <= 0`, at most all of them. */
  function Clamp(n: int, len: nat): (c: nat)
    ensures c <= len
    ensures n <= 0 ==> c == 0
    ensures 0 <= n <= len ==> c == n
    ensures n >= len ==> c == len
  {
    if n <= 0 then 0 else if n < len then n else len
  }

  /**
   * `r` is a correct answer to `nlargest(n)` on the column `keys`: it has
   * `min(n, |keys|)` rows (none when `n <= 0`), they are in ranking order
   * without repetition, and every row left out ranks behind every row kept.
   */
  predicate IsTopN(keys: seq<real>, n: int, r: seq<nat>) {
    && |r| == Clamp(n, |keys|)
    && Rows(keys, r)
    && Ranked(keys, r)
    && forall j | 0 <= j < |keys| && j !in r :: forall a | 0 <= a < |r| :: Ahead(keys, r[a], j)
  }

  /** Inserts row `i` into a ranked list at its place. */
  function Insert(keys: seq<real>, s: seq<nat>, i: nat): (r: seq<nat>)
    requires i < |keys| && i !in s
    requires Rows(keys, s) && Ranked(keys, s)
    ensures |r| == |s| + 1
    ensures forall x :: x in r <==> x == i || x in s
    ensures Rows(keys, r) && Ranked(keys, r)
  {
    if s == [] then [i]
    else if Ahead(keys, i, s[0]) then
      assert forall b | 0 <= b < |s| :: Ahead(keys, i, s[b]) by {
        forall b | 0 <= b < |s| ensures Ahead(keys, i, s[b]) {
          if b > 0 {
            assert Ahead(keys, s[0], s[b]);
          }
        }
      }
      [i] + s
    else
      AheadTotal(keys, i, s[0]);
      var tail := Insert(keys, s[1..], i);
      assert forall b | 0 <= b < |tail| :: Ahead(keys, s[0], tail[b]) by {
        forall b | 0 <= b < |tail| ensures Ahead(keys, s[0], tail[b]) {
          if tail[b] != i {
            assert tail[b] in s[1..];
            var c :| 0 <= c < |s| - 1 && s[1..][c] == tail[b];
            assert Ahead(keys, s[0], s[c + 1]);
          }
        }
      }
      [s[0]] + tail
  }

  /** The rows `0 .. m-1` in ranking order: a stable descending sort of their indices. */
  function RankAll(keys: seq<real>, m: nat): (r: seq<nat>)
    requires m <= |keys|
    ensures |r| == m
    ensures forall x: nat :: x in r <==> x < m
    ensures Rows(keys, r) && Ranked(keys, r)
  {
    if m == 0 then []
    else
      Insert(keys, RankAll(keys, m - 1), m - 1)
  }

  /** `nlargest(n)` on the column `keys`, as the rows it returns, in order. */
  function TopN(keys: seq<real>, n: int): (r: seq<nat>)
    ensures IsTopN(keys, n, r)
  {
    var all := RankAll(keys, |keys|);
    var c := Clamp(n, |keys|);
    assert forall j | 0 <= j < |keys| && j !in all[..c] :: forall a | 0 <= a < c :: Ahead(keys, all[a], j) by {
      forall j | 0 <= j < |keys| && j !in all[..c]
        ensures forall a | 0 <= a < c :: Ahead(keys, all[a], j)
      {
        assert j in all;
        var p :| 0 <= p < |all| && all[p] == j;
        assert c <= p;
      }
    }
    all[..c]
  }

  /** In a correct answer, the entry at position `a` ranks before every row not listed before it. */
  lemma TopNLeads(keys: seq<real>, n: int, r: seq<nat>, a: nat, j: nat)
    requires IsTopN(keys, n, r)
    requires a < |r| && j < |keys| && j != r[a] && j !in r[..a]
    ensures Ahead(keys, r[a], j)
  {
    if j in r {
      var b :| 0 <= b < |r| && r[b] == j;
    }
  }

  /**
   * `IsTopN` admits exactly one answer: any selection meeting it is the one
   * `TopN` computes.
   */
  lemma {:induction false} TopNUnique(keys: seq<real>, n: int, r: seq<nat>)
    requires IsTopN(keys, n, r)
    ensures r == TopN(keys, n)
  {
    var s := TopN(keys, n);
    var a := 0;
    while a < |r|
      invariant a <= |r| && r[..a] == s[..a]
    {
      if r[a] != s[a] {
        TopNLeads(keys, n, r, a, s[a]);
        TopNLeads(keys, n, s, a, r[a]);
        assert false;
      }
      assert r[..a + 1] == r[..a] + [r[a]];
      assert s[..a + 1] == s[..a] + [s[a]];
      a := a + 1;
    }
    assert r == r[..a] && s == s[..a];
  }

  /** Asking for more rows extends the answer: the first `n` rows of `nlargest(n')` are `nlargest(n)`. */
  lemma TopNPrefix(keys: seq<real>, n: int, n': int)
    requires n <= n'
    ensures TopN(keys, n) == TopN(keys, n')[..|TopN(keys, n)|]
  {
    var all := RankAll(keys, |keys|);
    assert TopN(keys, n) == all[..Clamp(n, |keys|)];
    assert TopN(keys, n') == all[..Clamp(n', |keys|)];
  }

  /** The column with every value negated. */
  function Negated(keys: seq<real>): (r: seq<real>)
    ensures |r| == |keys|
    ensures forall i | 0 <= i < |keys| :: r[i] == -keys[i]
  {
    seq(|keys|, i requires 0 <= i < |keys| => -keys[i])
  }

  /** Row `i` ranks before row `j` in `nsmallest`: its key is smaller, or the keys tie and `i` comes first. */
  predicate Behind(keys: seq<real>, i: nat, j: nat) {
    i < |keys| && j < |keys| && (keys[i] < keys[j] || (keys[i] == keys[j] && i < j))
  }

  /** `r` is a correct answer to `nsmallest(n)`: the mirror image of `IsTopN`. */
  predicate IsBottomN(keys: seq<real>, n: int, r: seq<nat>) {
    && |r| == Clamp(n, |keys|)
    && Rows(keys, r)
    && (forall a, b | 0 <= a < b < |r| :: Behind(keys, r[a], r[b]))
    && forall j | 0 <= j < |keys| && j !in r :: forall a | 0 <= a < |r| :: Behind(keys, r[a], j)
  }

  /** `nsmallest(n)`: `nlargest(n)` of the negated column, as pandas computes it. */
  function BottomN(keys: seq<real>, n: int): (r: seq<nat>)
    ensures IsBottomN(keys, n, r)
  {
    var r := TopN(Negated(keys), n);
    assert forall i: nat, j: nat :: Ahead(Negated(keys), i, j) == Behind(keys, i, j);
    r
  }

  // ---------------------------------------------------------------------
  // Filtering and lookup
  // ---------------------------------------------------------------------

  /**
   * `rows[mask]` where `mask` is `p` applied to each row: the rows for which
   * `p` holds, all of them and only them, in table order.
   */
  function Where<T>(rows: seq<T>, p: T -> bool): (r: seq<nat>)
    ensures |r| <= |rows|
    ensures forall a, b | 0 <= a < b < |r| :: r[a] < r[b]
    ensures forall a | 0 <= a < |r| :: r[a] < |rows| && p(rows[r[a]])
    ensures forall i | 0 <= i < |rows| && p(rows[i]) :: i in r
  {
    if rows == [] then []
    else
      var m := |rows| - 1;
      var front := Where(rows[..m], p);
      assert forall a | 0 <= a < |front| :: rows[front[a]] == rows[..m][front[a]];
      assert forall i | 0 <= i < m :: rows[i] == rows[..m][i];
      front + (if p(rows[m]) then [m] else [])
  }

  /** The mask `(col >= lo) & (col <= hi)` on the column `f`. */
  function InRange<T>(f: T -> real, lo: real, hi: real): T -> bool {
    (x: T) => lo <= f(x) <= hi
  }

  /** A row meets the range mask exactly when its value lies in the range. */
  lemma InRangeMeans<T>(f: T -> real, lo: real, hi: real, x: T)
    ensures InRange(f, lo, hi)(x) <==> lo <= f(x) <= hi
  {
  }

  /** An inverted range selects nothing. */
  lemma RangeEmpty<T>(rows: seq<T>, f: T -> real, lo: real, hi: real)
    requires hi < lo
    ensures Where(rows, InRange(f, lo, hi)) == []
  {
    WhereCount(rows, InRange(f, lo, hi));
    CountNone(rows, InRange(f, lo, hi));
  }

  /** A range that holds every value of the column selects every row, in order. */
  lemma RangeFull<T>(rows: seq<T>, f: T -> real, lo: real, hi: real)
    requires forall i | 0 <= i < |rows| :: lo <= f(rows[i]) <= hi
    ensures |Where(rows, InRange(f, lo, hi))| == |rows|
    ensures forall i | 0 <= i < |rows| :: Where(rows, InRange(f, lo, hi))[i] == i
  {
    var r := Where(rows, InRange(f, lo, hi));
    WhereCount(rows, InRange(f, lo, hi));
    CountAll(rows, InRange(f, lo, hi));
    Increasing(r, |rows|);
  }

  /** A strictly increasing list of `n` positions below `n` is `0, 1, ..., n - 1`. */
  lemma {:induction false} Increasing(r: seq<nat>, n: nat)
    requires |r| == n
    requires forall a, b | 0 <= a < b < |r| :: r[a] < r[b]
    requires forall a | 0 <= a < |r| :: r[a] < n
    ensures forall i | 0 <= i < n :: r[i] == i
  {
    if n > 0 {
      var m := n - 1;
      var front := r[..m];
      assert forall a | 0 <= a < m :: front[a] == r[a] && r[a] < r[m];
      Increasing(front, m);
      if m > 0 {
        assert r[m - 1] == front[m - 1] == m - 1;
      }
    }
  }

  /** Filtering a table that grew by one row. */
  lemma WhereAppend<T>(rows: seq<T>, x: T, p: T -> bool)
    ensures Where(rows + [x], p) == Where(rows, p) + (if p(x) then [|rows|] else [])
  {
    assert (rows + [x])[..|rows|] == rows;
  }

  /** How many rows meet `p`, counted row by row. */
  function Count<T>(rows: seq<T>, p: T -> bool): nat {
    if rows == [] then 0
    else Count(rows[..|rows| - 1], p) + (if p(rows[|rows| - 1]) then 1 else 0)
  }

  /** `len(rows[mask])` is the number of rows meeting the mask. */
  lemma {:induction false} WhereCount<T>(rows: seq<T>, p: T -> bool)
    ensures |Where(rows, p)| == Count(rows, p)
  {
    if rows != [] {
      WhereCount(rows[..|rows| - 1], p);
    }
  }

  /** When every row meets `p`, the count is the table's length. */
  lemma {:induction false} CountAll<T>(rows: seq<T>, p: T -> bool)
    requires forall i | 0 <= i < |rows| :: p(rows[i])
    ensures Count(rows, p) == |rows|
  {
    if rows != [] {
      var m := |rows| - 1;
      assert forall i | 0 <= i < m :: rows[..m][i] == rows[i];
      CountAll(rows[..m], p);
    }
  }

  /** When no row meets `p`, the count is zero. */
  lemma {:induction false} CountNone<T>(rows: seq<T>, p: T -> bool)
    requires forall i | 0 <= i < |rows| :: !p(rows[i])
    ensures Count(rows, p) == 0
  {
    if rows != [] {
      var m := |rows| - 1;
      assert forall i | 0 <= i < m :: rows[..m][i] == rows[i];
      CountNone(rows[..m], p);
    }
  }

  /**
   * Three conditions of which each row meets exactly one split the table:
   * the three filtered frames together have as many rows as the table.
   */
  lemma WherePartition<T>(rows: seq<T>, p: T -> bool, q: T -> bool, z: T -> bool)
    requires forall i | 0 <= i < |rows| ::
               (p(rows[i]) || q(rows[i]) || z(rows[i])) &&
               !(p(rows[i]) && q(rows[i])) && !(p(rows[i]) && z(rows[i])) && !(q(rows[i]) && z(rows[i]))
    ensures |Where(rows, p)| + |Where(rows, q)| + |Where(rows, z)| == |rows|
  {
    WhereCount(rows, p);
    WhereCount(rows, q);
    WhereCount(rows, z);
    CountPartition(rows, p, q, z);
  }

  lemma {:induction false} CountPartition<T>(rows: seq<T>, p: T -> bool, q: T -> bool, z: T -> bool)
    requires forall i | 0 <= i < |rows| ::
               (p(rows[i]) || q(rows[i]) || z(rows[i])) &&
               !(p(rows[i]) && q(rows[i])) && !(p(rows[i]) && z(rows[i])) && !(q(rows[i]) && z(rows[i]))
    ensures Count(rows, p) + Count(rows, q) + Count(rows, z) == |rows|
  {
    if rows != [] {
      var m := |rows| - 1;
      assert forall i | 0 <= i < m :: rows[..m][i] == rows[i];
      CountPartition(rows[..m], p, q, z);
    }
  }

  /** Two exclusive conditions select no more rows between them than the table has. */
  lemma WhereDisjoint<T>(rows: seq<T>, p: T -> bool, q: T -> bool)
    requires forall i | 0 <= i < |rows| :: !(p(rows[i]) && q(rows[i]))
    ensures |Where(rows, p)| + |Where(rows, q)| <= |rows|
  {
    WherePartition(rows, p, q, x => !p(x) && !q(x));
  }

  /**
   * `rows[mask].iloc[0]`, or `None` when the filtered frame is empty: the
   * first row for which `p` holds.
   */
  function First<T>(rows: seq<T>, p: T -> bool): (r: Option<nat>)
    ensures r.None? <==> forall i | 0 <= i < |rows| :: !p(rows[i])
    ensures r.Some? ==> r.value < |rows| && p(rows[r.value])
    ensures r.Some? ==> forall k | 0 <= k < r.value :: !p(rows[k])
  {
    var w := Where(rows, p);
    if w == [] then None
    else
      assert forall k | 0 <= k < w[0] :: !p(rows[k]);
      Some(w[0])
  }

  /** Masks that agree on every row find the same first row. */
  lemma FirstAgree<T>(rows: seq<T>, p: T -> bool, q: T -> bool)
    requires forall i | 0 <= i < |rows| :: p(rows[i]) == q(rows[i])
    ensures First(rows, p) == First(rows, q)
  {
  }

  // ---------------------------------------------------------------------
  // Aggregates
  // ---------------------------------------------------------------------

  /** `Series.sum()`: the empty column sums to 0, and a column of non-negative values has a non-negative sum. */
  function Sum(xs: seq<real>): real {
    if xs == [] then 0.0 else Sum(xs[..|xs| - 1]) + xs[|xs| - 1]
  }

  /** A column of non-negative values has a non-negative sum. */
  lemma {:induction false} SumNonNegative(xs: seq<real>)
    requires forall i | 0 <= i < |xs| :: 0.0 <= xs[i]
    ensures 0.0 <= Sum(xs)
  {
    if xs != [] {
      var m := |xs| - 1;
      assert forall i | 0 <= i < m :: xs[..m][i] == xs[i];
      SumNonNegative(xs[..m]);
    }
  }

  lemma SumAppend(xs: seq<real>, x: real)
    ensures Sum(xs + [x]) == Sum(xs) + x
  {
    assert (xs + [x])[..|xs|] == xs;
  }

  /** Column sums distribute over a row-wise difference of columns. */
  lemma {:induction false} SumDifference(xs: seq<real>, ys: seq<real>, zs: seq<real>)
    requires |xs| == |ys| == |zs|
    requires forall i | 0 <= i < |xs| :: xs[i] == ys[i] - zs[i]
    ensures Sum(xs) == Sum(ys) - Sum(zs)
  {
    if xs != [] {
      var m := |xs| - 1;
      SumDifference(xs[..m], ys[..m], zs[..m]);
    }
  }

  /** Truncating the table truncates its columns. */
  lemma ColumnPrefix<T>(rows: seq<T>, f: T -> real, m: nat)
    requires m <= |rows|
    ensures Column(rows, f)[..m] == Column(rows[..m], f)
  {
  }

  /** `rows[mask][col].sum()`: the sum of `f` over the rows meeting `p`. */
  function SumWhere<T>(rows: seq<T>, p: T -> bool, f: T -> real): real {
    if rows == [] then 0.0
    else
      var m := |rows| - 1;
      SumWhere(rows[..m], p, f) + (if p(rows[m]) then f(rows[m]) else 0.0)
  }

  lemma SumWhereAppend<T>(rows: seq<T>, x: T, p: T -> bool, f: T -> real)
    ensures SumWhere(rows + [x], p, f) == SumWhere(rows, p, f) + (if p(x) then f(x) else 0.0)
  {
    assert (rows + [x])[..|rows|] == rows;
  }

  /**
   * Two masks of which every row meets exactly one split a column's sum:
   * the two partial sums add up to the whole.
   */
  lemma {:induction false} SumWhereSplit<T>(rows: seq<T>, p: T -> bool, q: T -> bool, f: T -> real)
    requires forall i | 0 <= i < |rows| :: p(rows[i]) != q(rows[i])
    ensures SumWhere(rows, p, f) + SumWhere(rows, q, f) == Sum(Column(rows, f))
  {
    if rows != [] {
      var m := |rows| - 1;
      assert forall i | 0 <= i < m :: rows[..m][i] == rows[i];
      SumWhereSplit(rows[..m], p, q, f);
      ColumnPrefix(rows, f, m);
    }
  }

  /** A column whose values lie in `[lo, hi]` sums to between `|xs| * lo` and `|xs| * hi`. */
  lemma {:induction false} SumBounds(xs: seq<real>, lo: real, hi: real)
    requires forall i | 0 <= i < |xs| :: lo <= xs[i] <= hi
    ensures |xs| as real * lo <= Sum(xs) <= |xs| as real * hi
  {
    if xs != [] {
      var m := |xs| - 1;
      SumBounds(xs[..m], lo, hi);
      assert (m + 1) as real * lo == m as real * lo + lo;
      assert (m + 1) as real * hi == m as real * hi + hi;
    }
  }

  /** `SumBounds` for a column taken from a table. */
  lemma ColumnSumBounds<T>(rows: seq<T>, f: T -> real, lo: real, hi: real)
    requires forall i | 0 <= i < |rows| :: lo <= f(rows[i]) <= hi
    ensures |rows| as real * lo <= Sum(Column(rows, f)) <= |rows| as real * hi
  {
    SumBounds(Column(rows, f), lo, hi);
  }

  /** `Series.mean()`; the mean of an empty column is NaN, here `None`. */
  function Mean(xs: seq<real>): (r: Option<real>)
    ensures r.None? <==> xs == []
  {
    if xs == [] then None else Some(Sum(xs) / |xs| as real)
  }

  /** The mean lies between the smallest and the largest value. */
  lemma MeanBounds(xs: seq<real>, lo: real, hi: real)
    requires xs != []
    requires forall i | 0 <= i < |xs| :: lo <= xs[i] <= hi
    ensures lo <= Mean(xs).value <= hi
  {
    SumBounds(xs, lo, hi);
    var n := |xs| as real;
    assert Mean(xs).value * n == Sum(xs);
  }
}
