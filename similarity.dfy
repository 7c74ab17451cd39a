/** The player-similarity computation: fill missing features with 0, z-score
    every feature column against the whole cohort, and list for every
    player-season the `k` nearest other player-seasons by Euclidean distance
    in the standardized space.

    Distances are kept squared: `sqrt` is monotone, so it changes no ordering.
    The population standard deviation of each column is an input tied to the
    column's variance by `s >= 0 && s * s == Variance`. */
module Similarity {
  import opened Wrappers

  /** One row of the season view: the key columns and the feature columns
      (pts, ast, trb, stl, blk, mp, ts_pct), a SQL NULL as `None`. */
  datatype PlayerSeason = PlayerSeason(playerId: int, season: int, features: seq<Option<real>>)

  /** A distance as the script holds it: a number, or the infinity written over
      the subject's own entry. */
  datatype Distance = Finite(value: real) | Infinite

  /** One output row of the similarity table. */
  datatype SimilarityRecord = SimilarityRecord(
    playerId: int, season: int,
    compPlayerId: int, compSeason: int,
    distance: Distance, rank: nat)

  type Matrix = seq<seq<real>>

  /** Comparables kept per player-season. */
  const TopK: nat := 5

  function Min(a: nat, b: nat): nat {
    if a <= b then a else b
  }

  /** Every row has `width` features. */
  predicate Rectangular(X: Matrix, width: nat) {
    forall i :: 0 <= i < |X| ==> |X[i]| == width
  }

  /** Every row has the same number of features as the first. */
  predicate Uniform(X: Matrix) {
    X == [] || Rectangular(X, |X[0]|)
  }

  /** Every row has a feature at column `j`. */
  predicate HasColumn(X: Matrix, j: nat) {
    forall i :: 0 <= i < |X| ==> j < |X[i]|
  }

  // ---------------------------------------------------------------------
  // Feature matrix and standardization
  // ---------------------------------------------------------------------

  function FillMissing(v: Option<real>): real {
    match v
    case Some(x) => x
    case None => 0.0
  }

  /** `df[feature_cols].fillna(0.0)`: present values are kept and every
      missing value becomes 0.0; the shape is unchanged. */
  function FeatureMatrix(cohort: seq<PlayerSeason>): (X: Matrix)
    ensures |X| == |cohort|
    ensures forall i :: 0 <= i < |X| ==> |X[i]| == |cohort[i].features|
    ensures forall i, j :: 0 <= i < |cohort| && 0 <= j < |cohort[i].features| ==>
      (cohort[i].features[j].Some? ==> X[i][j] == cohort[i].features[j].value) &&
      (cohort[i].features[j].None? ==> X[i][j] == 0.0)
  {
    seq(|cohort|, i requires 0 <= i < |cohort| =>
      seq(|cohort[i].features|, j requires 0 <= j < |cohort[i].features| =>
        FillMissing(cohort[i].features[j])))
  }

  /** The sum of column `j` over the first `m` rows. */
  function ColumnSum(X: Matrix, j: nat, m: nat): real
    requires m <= |X| && HasColumn(X, j)
  {
    if m == 0 then 0.0 else ColumnSum(X, j, m - 1) + X[m - 1][j]
  }

  /** `X.mean(axis=0)[j]` (0 for an empty cohort, where no record is produced). */
  function Mean(X: Matrix, j: nat): real
    requires HasColumn(X, j)
  {
    if |X| == 0 then 0.0 else ColumnSum(X, j, |X|) / (|X| as real)
  }

  /** The sum of squared deviations from `mu` of column `j` over the first `m` rows. */
  function DeviationSum(X: Matrix, j: nat, mu: real, m: nat): (r: real)
    requires m <= |X| && HasColumn(X, j)
    ensures r >= 0.0
  {
    if m == 0 then 0.0
    else
      var e := X[m - 1][j] - mu;
      SquareZeroIff(e);
      DeviationSum(X, j, mu, m - 1) + e * e
  }

  /** Population variance of column `j` (divisor n, as numpy's default `ddof=0`). */
  function Variance(X: Matrix, j: nat): real
    requires HasColumn(X, j)
  {
    if |X| == 0 then 0.0 else DeviationSum(X, j, Mean(X, j), |X|) / (|X| as real)
  }

  /** `s` is `X.std(axis=0)[j]`: the non-negative square root of the variance. */
  predicate IsPopulationStd(X: Matrix, j: nat, s: real)
    requires HasColumn(X, j)
  {
    s >= 0.0 && s * s == Variance(X, j)
  }

  predicate ArePopulationStds(X: Matrix, stds: seq<real>) {
    && Rectangular(X, |stds|)
    && forall j :: 0 <= j < |stds| ==> IsPopulationStd(X, j, stds[j])
  }

  /** `stds[stds == 0] = 1.0` for one column: never zero for a standard deviation. */
  function StdUsed(s: real): (r: real)
    ensures s >= 0.0 ==> r > 0.0
    ensures r != 0.0
  {
    if s == 0.0 then 1.0 else s
  }

  /** The in-place guard on the vector of standard deviations: every zero
      entry becomes 1.0 and every other entry is kept. */
  method ReplaceZeroStds(stds: array<real>)
    modifies stds
    ensures forall j :: 0 <= j < stds.Length ==> stds[j] == StdUsed(old(stds[j]))
    ensures forall j :: 0 <= j < stds.Length ==> stds[j] != 0.0
  {
    forall j | 0 <= j < stds.Length && stds[j] == 0.0 {
      stds[j] := 1.0;
    }
  }

  /** `(X - means) / stds`: one mean and one guarded standard deviation per
      column, shared by every row. */
  function Standardize(X: Matrix, stds: seq<real>): (Z: Matrix)
    requires Rectangular(X, |stds|)
    ensures |Z| == |X| && Rectangular(Z, |stds|)
    ensures forall i, j :: 0 <= i < |X| && 0 <= j < |stds| ==>
      Z[i][j] == (X[i][j] - Mean(X, j)) / StdUsed(stds[j])
  {
    seq(|X|, i requires 0 <= i < |X| =>
      seq(|stds|, j requires 0 <= j < |stds| => (X[i][j] - Mean(X, j)) / StdUsed(stds[j])))
  }

  lemma ProductZero(a: real, b: real)
    requires a * b == 0.0
    ensures a == 0.0 || b == 0.0
  {
  }

  lemma SquareZeroIff(e: real)
    ensures e * e >= 0.0
    ensures e * e == 0.0 <==> e == 0.0
  {
    if e * e == 0.0 {
      ProductZero(e, e);
    }
  }

  lemma ProductOfQuotients(a: real, b: real, c: real, d: real)
    requires c != 0.0 && d != 0.0
    ensures c * d != 0.0
    ensures (a / c) * (b / d) == (a * b) / (c * d)
  {
    if c * d == 0.0 {
      ProductZero(c, d);
    }
    var x, y := a / c, b / d;
    assert x * c == a && y * d == b;
    assert (x * y) * (c * d) == (x * c) * (y * d);
    MulDivCancel(x * y, c * d);
  }

  lemma SquareOfQuotient(e: real, s: real)
    requires s != 0.0
    ensures s * s != 0.0
    ensures (e / s) * (e / s) == (e * e) / (s * s)
  {
    ProductOfQuotients(e, e, s, s);
  }

  lemma AddQuotients(a: real, b: real, c: real)
    requires c != 0.0
    ensures a / c + b / c == (a + b) / c
  {
    var x, y := a / c, b / c;
    assert a == x * c && b == y * c;
    assert a + b == (x + y) * c;
    MulDivCancel(x + y, c);
  }

  lemma DivMulCancel(a: real, b: real)
    requires b != 0.0
    ensures (a / b) * b == a
  {
  }

  lemma DivSelf(a: real)
    requires a != 0.0
    ensures a / a == 1.0
  {
  }

  lemma MulDivCancel(a: real, b: real)
    requires b != 0.0
    ensures (a * b) / b == a
  {
  }

  lemma {:induction false} ColumnSumOfConstant(X: Matrix, j: nat, m: nat, c: real)
    requires m <= |X| && HasColumn(X, j)
    requires forall i :: 0 <= i < m ==> X[i][j] == c
    ensures ColumnSum(X, j, m) == (m as real) * c
  {
    if m > 0 {
      ColumnSumOfConstant(X, j, m - 1, c);
    }
  }

  lemma {:induction false} DeviationSumZeroIff(X: Matrix, j: nat, mu: real, m: nat)
    requires m <= |X| && HasColumn(X, j)
    ensures DeviationSum(X, j, mu, m) == 0.0 <==> forall i :: 0 <= i < m ==> X[i][j] == mu
  {
    if m > 0 {
      DeviationSumZeroIff(X, j, mu, m - 1);
      SquareZeroIff(X[m - 1][j] - mu);
    }
  }

  /** A column has zero variance exactly when it is constant. */
  lemma ZeroVarianceIffConstant(X: Matrix, j: nat)
    requires |X| > 0 && HasColumn(X, j)
    ensures Variance(X, j) == 0.0 <==> forall i :: 0 <= i < |X| ==> X[i][j] == X[0][j]
  {
    var n := |X|;
    var mu := Mean(X, j);
    DeviationSumZeroIff(X, j, mu, n);
    if forall i :: 0 <= i < n ==> X[i][j] == X[0][j] {
      ColumnSumOfConstant(X, j, n, X[0][j]);
      assert mu == X[0][j];
    }
  }

  /** A constant feature has its standard deviation replaced by 1.0 and
      standardizes to 0 in every row. */
  lemma ConstantFeatureStandardizesToZero(X: Matrix, stds: seq<real>, j: nat)
    requires |X| > 0 && ArePopulationStds(X, stds) && j < |stds|
    requires forall i :: 0 <= i < |X| ==> X[i][j] == X[0][j]
    ensures StdUsed(stds[j]) == 1.0
    ensures forall i :: 0 <= i < |X| ==> Standardize(X, stds)[i][j] == 0.0
  {
    ZeroVarianceIffConstant(X, j);
    SquareZeroIff(stds[j]);
    ColumnSumOfConstant(X, j, |X|, X[0][j]);
  }

  /** Summing `(x - mu) / s` over a column. */
  lemma {:induction false} ColumnSumShifted(X: Matrix, Z: Matrix, j: nat, mu: real, s: real, m: nat)
    requires s != 0.0
    requires m <= |X| && m <= |Z| && HasColumn(X, j) && HasColumn(Z, j)
    requires forall i :: 0 <= i < m ==> Z[i][j] == (X[i][j] - mu) / s
    ensures ColumnSum(Z, j, m) == (ColumnSum(X, j, m) - (m as real) * mu) / s
  {
    if m > 0 {
      ColumnSumShifted(X, Z, j, mu, s, m - 1);
      var a := ColumnSum(X, j, m - 1) - ((m - 1) as real) * mu;
      var b := X[m - 1][j] - mu;
      assert ColumnSum(Z, j, m) == a / s + b / s;
      AddQuotients(a, b, s);
      assert a + b == ColumnSum(X, j, m) - (m as real) * mu;
    }
  }

  /** Subtracting the mean `c / n` from each of `n` values summing to `c`
      leaves a sum of zero, whatever it is divided by. */
  lemma CenteredSumIsZero(c: real, n: real, mu: real, s: real)
    requires n != 0.0 && s != 0.0 && mu == c / n
    ensures (c - n * mu) / s == 0.0
  {
    DivMulCancel(c, n);
  }

  /** Every standardized column sums (hence averages) to zero. */
  lemma StandardizedColumnMeanIsZero(X: Matrix, stds: seq<real>, j: nat)
    requires Rectangular(X, |stds|) && j < |stds|
    ensures Mean(Standardize(X, stds), j) == 0.0
  {
    var Z := Standardize(X, stds);
    var n := |X|;
    if n > 0 {
      var nr := n as real;
      var mu := Mean(X, j);
      var c := ColumnSum(X, j, n);
      var s := StdUsed(stds[j]);
      ColumnSumShifted(X, Z, j, mu, s, n);
      assert mu == c / nr;
      CenteredSumIsZero(c, nr, mu, s);
    }
  }

  /** Summing the squares of `(x - mu) / s` over a column. */
  lemma {:induction false} DeviationSumScaled(X: Matrix, Z: Matrix, j: nat, mu: real, s: real, v: real, m: nat)
    requires s != 0.0 && v != 0.0 && v == s * s
    requires m <= |X| && m <= |Z| && HasColumn(X, j) && HasColumn(Z, j)
    requires forall i :: 0 <= i < m ==> Z[i][j] == (X[i][j] - mu) / s
    ensures DeviationSum(Z, j, 0.0, m) == DeviationSum(X, j, mu, m) / v
  {
    if m > 0 {
      DeviationSumScaled(X, Z, j, mu, s, v, m - 1);
      var e := X[m - 1][j] - mu;
      SquareOfQuotient(e, s);
      AddQuotients(DeviationSum(X, j, mu, m - 1), e * e, v);
    }
  }

  /** A total divided by its own average gives the count back. */
  lemma QuotientByMean(total: real, n: real)
    requires n != 0.0 && total / n != 0.0
    ensures total / (total / n) == n
  {
    DivMulCancel(total, n);
    assert total == n * (total / n);
    MulDivCancel(n, total / n);
  }

  /** A column that is not constant standardizes to population variance 1. */
  lemma StandardizedVarianceIsOne(X: Matrix, stds: seq<real>, j: nat)
    requires ArePopulationStds(X, stds) && j < |stds|
    requires Variance(X, j) != 0.0
    ensures Variance(Standardize(X, stds), j) == 1.0
  {
    var Z := Standardize(X, stds);
    var n := |X|;
    var nr := n as real;
    var s := stds[j];
    var v := Variance(X, j);
    var mu := Mean(X, j);
    assert n > 0;
    assert s != 0.0 by {
      if s == 0.0 {
        assert false;
      }
    }
    var dx := DeviationSum(X, j, mu, n);
    assert v == dx / nr;
    DeviationSumScaled(X, Z, j, mu, s, v, n);
    QuotientByMean(dx, nr);
    var dz := DeviationSum(Z, j, 0.0, n);
    assert dz == nr;
    StandardizedColumnMeanIsZero(X, stds, j);
    assert |Z| == n && Mean(Z, j) == 0.0;
    assert Variance(Z, j) == dz / nr;
    DivSelf(nr);
  }

  // ---------------------------------------------------------------------
  // Distances
  // ---------------------------------------------------------------------

  /** `((X_norm[j] - X_norm[i]) ** 2).sum()`, the squared Euclidean distance. */
  function SquaredDistance(a: seq<real>, b: seq<real>): (d: real)
    requires |a| == |b|
    ensures d >= 0.0
  {
    if |a| == 0 then 0.0
    else
      var e := a[0] - b[0];
      SquareZeroIff(e);
      e * e + SquaredDistance(a[1..], b[1..])
  }

  lemma {:induction false} SquaredDistanceSymmetric(a: seq<real>, b: seq<real>)
    requires |a| == |b|
    ensures SquaredDistance(a, b) == SquaredDistance(b, a)
  {
    if |a| > 0 {
      SquaredDistanceSymmetric(a[1..], b[1..]);
      assert (a[0] - b[0]) * (a[0] - b[0]) == (b[0] - a[0]) * (b[0] - a[0]);
    }
  }

  /** The distance is zero exactly between equal vectors. */
  lemma {:induction false} SquaredDistanceZeroIff(a: seq<real>, b: seq<real>)
    requires |a| == |b|
    ensures SquaredDistance(a, b) == 0.0 <==> a == b
  {
    if |a| > 0 {
      SquaredDistanceZeroIff(a[1..], b[1..]);
      SquareZeroIff(a[0] - b[0]);
      assert a == [a[0]] + a[1..] && b == [b[0]] + b[1..];
    }
  }

  // ---------------------------------------------------------------------
  // Ordering of candidates: distance first, then lower load index
  // ---------------------------------------------------------------------

  /** Strictly nearer; infinity is nearer than nothing. */
  predicate Below(x: Distance, y: Distance) {
    x.Finite? && (y.Infinite? || x.value < y.value)
  }

  /** Candidate `a` is listed before candidate `b`: strictly nearer, or
      equally near and loaded earlier. */
  predicate Precedes(d: seq<Distance>, a: nat, b: nat)
    requires a < |d| && b < |d|
  {
    Below(d[a], d[b]) || (d[a] == d[b] && a < b)
  }

  predicate InRange(s: seq<nat>, n: nat) {
    forall p :: 0 <= p < |s| ==> s[p] < n
  }

  predicate SortedBy(d: seq<Distance>, s: seq<nat>)
    requires InRange(s, |d|)
  {
    forall p, q :: 0 <= p < q < |s| ==> Precedes(d, s[p], s[q])
  }

  lemma PrecedesTotal(d: seq<Distance>, a: nat, b: nat)
    requires a < |d| && b < |d| && a != b
    ensures Precedes(d, a, b) || Precedes(d, b, a)
  {
  }

  lemma PrecedesTransitive(d: seq<Distance>, a: nat, b: nat, c: nat)
    requires a < |d| && b < |d| && c < |d|
    requires Precedes(d, a, b) && Precedes(d, b, c)
    ensures Precedes(d, a, c)
  {
  }

  /** Inserts candidate `x` into a sorted candidate list at its place. */
  function Insert(d: seq<Distance>, s: seq<nat>, x: nat): (r: seq<nat>)
    requires InRange(s, |d|) && x < |d| && SortedBy(d, s) && x !in s
    ensures InRange(r, |d|) && |r| == |s| + 1
    ensures forall y :: y in r <==> y in s || y == x
    ensures SortedBy(d, r)
  {
    if s == [] then [x]
    else if Precedes(d, x, s[0]) then
      assert forall q :: 0 <= q < |s| ==> Precedes(d, x, s[q]) by {
        forall q | 0 <= q < |s| ensures Precedes(d, x, s[q]) {
          if q > 0 {
            PrecedesTransitive(d, x, s[0], s[q]);
          }
        }
      }
      [x] + s
    else
      assert s == [s[0]] + s[1..];
      var rest := Insert(d, s[1..], x);
      assert forall q :: 0 <= q < |rest| ==> Precedes(d, s[0], rest[q]) by {
        forall q | 0 <= q < |rest| ensures Precedes(d, s[0], rest[q]) {
          assert rest[q] in rest;
          if rest[q] == x {
            PrecedesTotal(d, x, s[0]);
          } else {
            assert rest[q] in s[1..];
            var p :| 0 <= p < |s[1..]| && s[1..][p] == rest[q];
            assert s[p + 1] == rest[q];
          }
        }
      }
      [s[0]] + rest
  }

  /** `np.argsort` of the first `m` candidates, ties broken by load index:
      a sorted arrangement of exactly the indices below `m`. */
  function ArgSort(d: seq<Distance>, m: nat): (r: seq<nat>)
    requires m <= |d|
    ensures |r| == m && InRange(r, m)
    ensures forall x: nat :: x in r <==> x < m
    ensures SortedBy(d, r)
  {
    if m == 0 then []
    else
      var prev := ArgSort(d, m - 1);
      var last: nat := m - 1;
      var r := Insert(d, prev, last);
      assert forall p :: 0 <= p < |r| ==> r[p] in r;
      r
  }

  lemma SortedDistinct(d: seq<Distance>, s: seq<nat>, p: nat, q: nat)
    requires InRange(s, |d|) && SortedBy(d, s)
    requires p < |s| && q < |s| && p != q
    ensures s[p] != s[q]
  {
    if p < q {
      assert Precedes(d, s[p], s[q]);
    } else {
      assert Precedes(d, s[q], s[p]);
    }
  }

  // ---------------------------------------------------------------------
  // Neighbour selection
  // ---------------------------------------------------------------------

  /** The row of distances from subject `i`, its own entry set to infinity. */
  function RowDistances(Z: Matrix, i: nat): (d: seq<Distance>)
    requires i < |Z| && Uniform(Z)
    ensures |d| == |Z| && d[i] == Infinite
    ensures forall j :: 0 <= j < |Z| && j != i ==> d[j] == Finite(SquaredDistance(Z[i], Z[j]))
  {
    seq(|Z|, j requires 0 <= j < |Z| =>
      if j == i then Infinite else Finite(SquaredDistance(Z[i], Z[j])))
  }

  /** `np.argsort(dists)[:k]` for subject `i`. */
  function Nearest(Z: Matrix, i: nat, k: nat): (r: seq<nat>)
    requires i < |Z| && Uniform(Z)
    ensures |r| == Min(k, |Z|) && InRange(r, |Z|)
  {
    var full := ArgSort(RowDistances(Z, i), |Z|);
    full[..Min(k, |Z|)]
  }

  /** In a sorted list every element is the last one or precedes it. */
  lemma SortedBeforeLast(d: seq<Distance>, s: seq<nat>, x: nat)
    requires InRange(s, |d|) && SortedBy(d, s) && x in s
    ensures x == s[|s| - 1] || Precedes(d, x, s[|s| - 1])
  {
    var p :| 0 <= p < |s| && s[p] == x;
  }

  /** The subject's own row sorts last: it is the only infinite distance. */
  lemma SelfSortsLast(Z: Matrix, i: nat)
    requires i < |Z| && Uniform(Z)
    ensures ArgSort(RowDistances(Z, i), |Z|)[|Z| - 1] == i
  {
    var d := RowDistances(Z, i);
    var full := ArgSort(d, |Z|);
    var n := |Z|;
    var last := full[n - 1];
    SortedBeforeLast(d, full, i);
    assert d[last] == Infinite;
  }

  /** With more rows than comparables, a subject is never its own comparable. */
  lemma NearestExcludesSelf(Z: Matrix, i: nat, k: nat)
    requires i < |Z| && Uniform(Z) && k < |Z|
    ensures i !in Nearest(Z, i, k)
    ensures forall p :: 0 <= p < |Nearest(Z, i, k)| ==> RowDistances(Z, i)[Nearest(Z, i, k)[p]].Finite?
  {
    var d := RowDistances(Z, i);
    var full := ArgSort(d, |Z|);
    SelfSortsLast(Z, i);
    forall p | 0 <= p < k ensures full[p] != i {
      SortedDistinct(d, full, p, |Z| - 1);
    }
  }

  /** With no more rows than comparables, every row is listed and the
      subject itself comes last, at infinite distance. */
  lemma NearestIncludesSelfLastWhenSmall(Z: Matrix, i: nat, k: nat)
    requires i < |Z| && Uniform(Z) && |Z| <= k
    ensures |Nearest(Z, i, k)| == |Z|
    ensures Nearest(Z, i, k)[|Z| - 1] == i
    ensures RowDistances(Z, i)[i] == Infinite
    ensures forall j: nat :: j in Nearest(Z, i, k) <==> j < |Z|
  {
    SelfSortsLast(Z, i);
    var full := ArgSort(RowDistances(Z, i), |Z|);
    assert Nearest(Z, i, k) == full;
  }

  /** The comparables are distinct rows. */
  lemma NearestDistinct(Z: Matrix, i: nat, k: nat, p: nat, q: nat)
    requires i < |Z| && Uniform(Z)
    requires p < q < |Nearest(Z, i, k)|
    ensures Nearest(Z, i, k)[p] != Nearest(Z, i, k)[q]
  {
    SortedDistinct(RowDistances(Z, i), ArgSort(RowDistances(Z, i), |Z|), p, q);
  }

  /** Distances never decrease with rank; equal distances list the earlier
      loaded row first. */
  lemma NearestOrdered(Z: Matrix, i: nat, k: nat, p: nat, q: nat)
    requires i < |Z| && Uniform(Z)
    requires p < q < |Nearest(Z, i, k)|
    ensures var d, nn := RowDistances(Z, i), Nearest(Z, i, k);
      !Below(d[nn[q]], d[nn[p]]) && (d[nn[p]] == d[nn[q]] ==> nn[p] < nn[q])
  {
    var d := RowDistances(Z, i);
    assert Precedes(d, ArgSort(d, |Z|)[p], ArgSort(d, |Z|)[q]);
  }

  /** Every row left out is at least as far as every row chosen. */
  lemma NearestAreClosest(Z: Matrix, i: nat, k: nat, j: nat, p: nat)
    requires i < |Z| && Uniform(Z)
    requires j < |Z| && j !in Nearest(Z, i, k) && p < |Nearest(Z, i, k)|
    ensures !Below(RowDistances(Z, i)[j], RowDistances(Z, i)[Nearest(Z, i, k)[p]])
  {
    var d := RowDistances(Z, i);
    var full := ArgSort(d, |Z|);
    var nn := Nearest(Z, i, k);
    assert j in full;
    var q :| 0 <= q < |full| && full[q] == j;
    assert forall q' :: 0 <= q' < |nn| ==> full[q'] == nn[q'] && full[q'] != j;
    assert Precedes(d, full[p], full[q]);
  }

  /** The recorded distance between two different rows is symmetric, and zero
      exactly when their standardized vectors coincide. */
  lemma RowDistancesSymmetric(Z: Matrix, i: nat, j: nat)
    requires i < |Z| && j < |Z| && i != j && Uniform(Z)
    ensures RowDistances(Z, i)[j] == RowDistances(Z, j)[i]
    ensures RowDistances(Z, i)[j] == Finite(0.0) <==> Z[i] == Z[j]
  {
    SquaredDistanceSymmetric(Z[i], Z[j]);
    SquaredDistanceZeroIff(Z[i], Z[j]);
  }

  // ---------------------------------------------------------------------
  // Records
  // ---------------------------------------------------------------------

  /** The records of subject `i`, ranks counted from 1. */
  function SubjectRecords(cohort: seq<PlayerSeason>, Z: Matrix, k: nat, i: nat): (recs: seq<SimilarityRecord>)
    requires |Z| == |cohort| && Uniform(Z) && i < |Z|
    ensures |recs| == Min(k, |Z|)
    ensures forall r :: 0 <= r < |recs| ==>
      var j := Nearest(Z, i, k)[r];
      recs[r] == SimilarityRecord(cohort[i].playerId, cohort[i].season,
                                  cohort[j].playerId, cohort[j].season, RowDistances(Z, i)[j], r + 1)
  {
    var nn := Nearest(Z, i, k);
    var d := RowDistances(Z, i);
    seq(|nn|, r requires 0 <= r < |nn| =>
      SimilarityRecord(cohort[i].playerId, cohort[i].season,
                       cohort[nn[r]].playerId, cohort[nn[r]].season, d[nn[r]], r + 1))
  }

  /** The concatenation of the first `m` blocks. */
  function Flatten<T>(blocks: seq<seq<T>>, m: nat): seq<T>
    requires m <= |blocks|
  {
    if m == 0 then [] else Flatten(blocks, m - 1) + blocks[m - 1]
  }

  lemma {:induction false} FlattenLength<T>(blocks: seq<seq<T>>, w: nat, m: nat)
    requires m <= |blocks| && forall b :: 0 <= b < |blocks| ==> |blocks[b]| == w
    ensures |Flatten(blocks, m)| == m * w
  {
    if m > 0 {
      FlattenLength(blocks, w, m - 1);
      MulSucc(m - 1, w);
    }
  }

  /** With blocks of equal width `w`, offset `r` of block `i` sits at `i * w + r`. */
  lemma {:induction false} FlattenIndex<T>(blocks: seq<seq<T>>, w: nat, m: nat, i: nat, r: nat)
    requires m <= |blocks| && forall b :: 0 <= b < |blocks| ==> |blocks[b]| == w
    requires i < m && r < w
    ensures i * w + r < |Flatten(blocks, m)|
    ensures Flatten(blocks, m)[i * w + r] == blocks[i][r]
  {
    FlattenLength(blocks, w, m - 1);
    if i < m - 1 {
      FlattenIndex(blocks, w, m - 1, i, r);
    } else {
      assert i * w + r == |Flatten(blocks, m - 1)| + r;
    }
  }

  lemma MulSucc(a: nat, w: nat)
    ensures (a + 1) * w == a * w + w
  {
  }

  /** The records of every subject, one block per subject in load order. */
  function SubjectBlocks(cohort: seq<PlayerSeason>, Z: Matrix, k: nat): (blocks: seq<seq<SimilarityRecord>>)
    requires |Z| == |cohort| && Uniform(Z)
    ensures |blocks| == |Z|
    ensures forall i :: 0 <= i < |Z| ==> blocks[i] == SubjectRecords(cohort, Z, k, i)
  {
    seq(|Z|, i requires 0 <= i < |Z| => SubjectRecords(cohort, Z, k, i))
  }

  /** The records of the first `m` subjects, in load order. */
  function RecordsUpTo(cohort: seq<PlayerSeason>, Z: Matrix, k: nat, m: nat): seq<SimilarityRecord>
    requires |Z| == |cohort| && Uniform(Z) && m <= |Z|
  {
    Flatten(SubjectBlocks(cohort, Z, k), m)
  }

  /** One more subject appends that subject's block. */
  lemma RecordsUpToStep(cohort: seq<PlayerSeason>, Z: Matrix, k: nat, i: nat)
    requires |Z| == |cohort| && Uniform(Z) && i < |Z|
    ensures RecordsUpTo(cohort, Z, k, i + 1) == RecordsUpTo(cohort, Z, k, i) + SubjectRecords(cohort, Z, k, i)
  {
  }

  lemma RecordsLength(cohort: seq<PlayerSeason>, Z: Matrix, k: nat, m: nat)
    requires |Z| == |cohort| && Uniform(Z) && m <= |Z|
    ensures |RecordsUpTo(cohort, Z, k, m)| == m * Min(k, |Z|)
  {
    FlattenLength(SubjectBlocks(cohort, Z, k), Min(k, |Z|), m);
  }

  /** Subject `i`'s records form the block starting at `i * min(k, n)`. */
  lemma RecordsBlock(cohort: seq<PlayerSeason>, Z: Matrix, k: nat, m: nat, i: nat, r: nat)
    requires |Z| == |cohort| && Uniform(Z) && i < m <= |Z| && r < Min(k, |Z|)
    ensures i * Min(k, |Z|) + r < |RecordsUpTo(cohort, Z, k, m)|
    ensures RecordsUpTo(cohort, Z, k, m)[i * Min(k, |Z|) + r] == SubjectRecords(cohort, Z, k, i)[r]
  {
    FlattenIndex(SubjectBlocks(cohort, Z, k), Min(k, |Z|), m, i, r);
  }

  /** Every subject gets `min(k, n)` consecutive records, subjects in load
      order: the record at offset `r` of subject `i`'s block names subject `i`,
      has rank `r + 1`, and is its `r`-th nearest comparable. */
  lemma RecordsGroupedBySubject(cohort: seq<PlayerSeason>, Z: Matrix, k: nat, i: nat, r: nat)
    requires |Z| == |cohort| && Uniform(Z) && i < |Z| && r < Min(k, |Z|)
    ensures i * Min(k, |Z|) + r < |RecordsUpTo(cohort, Z, k, |Z|)|
    ensures var rec := RecordsUpTo(cohort, Z, k, |Z|)[i * Min(k, |Z|) + r];
      && rec.playerId == cohort[i].playerId && rec.season == cohort[i].season
      && rec.rank == r + 1
      && rec.compPlayerId == cohort[Nearest(Z, i, k)[r]].playerId
      && rec.compSeason == cohort[Nearest(Z, i, k)[r]].season
      && rec.distance == RowDistances(Z, i)[Nearest(Z, i, k)[r]]
  {
    RecordsBlock(cohort, Z, k, |Z|, i, r);
  }

  /** The distances from subject `i` to every row with its own entry
      overwritten by infinity, and the first `k` indices of their argsort. */
  method NeighbourRow(Z: Matrix, i: nat, k: nat) returns (dists: array<Distance>, nnIdx: seq<nat>)
    requires i < |Z| && Uniform(Z)
    ensures fresh(dists)
    ensures dists[..] == RowDistances(Z, i)
    ensures nnIdx == Nearest(Z, i, k)
  {
    var n := |Z|;
    dists := new Distance[n](j requires 0 <= j < n => Finite(SquaredDistance(Z[i], Z[j])));
    dists[i] := Infinite;
    nnIdx := ArgSort(dists[..], n)[..Min(k, n)];
  }

  /** The inner loop: one record per rank for subject `i`, appended in rank
      order. */
  method AppendSubject(records: seq<SimilarityRecord>, cohort: seq<PlayerSeason>, Z: Matrix, k: nat, i: nat,
                       dists: array<Distance>, nnIdx: seq<nat>)
    returns (out: seq<SimilarityRecord>)
    requires |Z| == |cohort| && Uniform(Z) && i < |Z|
    requires dists[..] == RowDistances(Z, i) && nnIdx == Nearest(Z, i, k)
    ensures out == records + SubjectRecords(cohort, Z, k, i)
  {
    ghost var subject := SubjectRecords(cohort, Z, k, i);
    out := records;
    for rank := 0 to |nnIdx|
      invariant out == records + subject[..rank]
    {
      var j := nnIdx[rank];
      var record := SimilarityRecord(cohort[i].playerId, cohort[i].season,
                                     cohort[j].playerId, cohort[j].season, dists[j], rank + 1);
      assert record == subject[rank];
      out := out + [record];
      assert subject[..rank + 1] == subject[..rank] + [subject[rank]];
    }
    assert subject[..|nnIdx|] == subject;
  }

  /** The subject-by-subject loop of the script: for each row, the distances
      to all rows with its own entry overwritten by infinity, the first
      `k` indices of their argsort, and one record per rank. */
  method RankNeighbours(cohort: seq<PlayerSeason>, Z: Matrix, k: nat) returns (records: seq<SimilarityRecord>)
    requires |Z| == |cohort| && Uniform(Z)
    ensures records == RecordsUpTo(cohort, Z, k, |Z|)
    ensures |records| == |Z| * Min(k, |Z|)
  {
    var n := |Z|;
    records := [];
    for i := 0 to n
      invariant records == RecordsUpTo(cohort, Z, k, i)
    {
      var dists, nnIdx := NeighbourRow(Z, i, k);
      records := AppendSubject(records, cohort, Z, k, i, dists, nnIdx);
      RecordsUpToStep(cohort, Z, k, i);
    }
    RecordsLength(cohort, Z, k, n);
  }

  /** Lines 38-71 of the script: fill, standardize with the guarded standard
      deviations, rank with `k = 5`. */
  method ComputeSimilarity(cohort: seq<PlayerSeason>, stds: seq<real>) returns (records: seq<SimilarityRecord>)
    requires ArePopulationStds(FeatureMatrix(cohort), stds)
    ensures records == RecordsUpTo(cohort, Standardize(FeatureMatrix(cohort), stds), TopK, |cohort|)
    ensures |records| == |cohort| * Min(TopK, |cohort|)
  {
    var X := FeatureMatrix(cohort);
    var used := new real[|stds|](j requires 0 <= j < |stds| => stds[j]);
    ReplaceZeroStds(used);
    var guarded := used[..];
    assert forall j :: 0 <= j < |stds| ==> guarded[j] == StdUsed(stds[j]);
    var Z := seq(|X|, i requires 0 <= i < |X| =>
      seq(|stds|, j requires 0 <= j < |stds| => (X[i][j] - Mean(X, j)) / guarded[j]));
    assert forall i :: 0 <= i < |X| ==> Z[i] == Standardize(X, stds)[i];
    assert Z == Standardize(X, stds);
    records := RankNeighbours(cohort, Z, TopK);
  }
}
