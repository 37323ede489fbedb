/** The similarity search of the new-player page: the pool's six metric
    columns are standardized with a scaler fitted on the pool, every pool row
    gets its Euclidean distance to the likewise standardized query, and the
    rows come back nearest first, cut to the first `n` and ranked from 1.

    Distances are kept squared: the square root is monotone, so the order,
    the cut and every comparison below are the same. */
module Similarity {
  import opened Wrappers
  import opened Columns
  import opened Combine
  import Statistics

  /** What `StandardScaler.fit` learns from one column: the mean and the
      population variance of its non-null values. */
  datatype ColumnFit = ColumnFit(mean: real, variance: real)

  /** The squared scale a column is divided by: the variance, or 1 for a
      constant column so that nothing is divided by zero. */
  function Scale2(fit: ColumnFit): (s: real)
    ensures s > 0.0
    ensures fit.variance > 0.0 ==> s == fit.variance
  {
    if fit.variance > 0.0 then fit.variance else 1.0
  }

  /** Metric `k` of every pool row, in pool order. */
  function Column(pool: seq<CombinePlayer>, k: nat): (c: seq<Option<real>>)
    requires k < MetricCount
    ensures |c| == |pool|
    ensures forall i :: 0 <= i < |pool| ==> c[i] == Metrics(pool[i])[k]
  {
    seq(|pool|, i requires 0 <= i < |pool| => Metrics(pool[i])[k])
  }

  /** Fitting one column: nulls are ignored; a column with no value at all
      has nothing to fit. */
  function FitColumn(column: seq<Option<real>>): (r: Option<ColumnFit>)
    ensures r.None? <==> forall i :: 0 <= i < |column| ==> column[i].None?
    ensures r.Some? ==> r.value.mean == Statistics.Mean(PresentValues(column))
    ensures r.Some? ==> r.value.variance == Statistics.PopVariance(PresentValues(column))
    ensures r.Some? ==> r.value.variance >= 0.0
  {
    var vs := PresentValues(column);
    if |vs| == 0 then None
    else Some(ColumnFit(Statistics.Mean(vs), Statistics.PopVariance(vs)))
  }

  /** `scaler.fit(pool[metrics])`: one fit per metric, from the pool only. */
  function Fit(pool: seq<CombinePlayer>): (fits: seq<Option<ColumnFit>>)
    ensures |fits| == MetricCount
    ensures forall k :: 0 <= k < MetricCount ==> fits[k] == FitColumn(Column(pool, k))
  {
    seq(MetricCount, k requires 0 <= k < MetricCount => FitColumn(Column(pool, k)))
  }

  /** The squared difference of the standardized query value `q` and the
      standardized pool value `x` in one column. */
  function Term(q: real, x: real, fit: ColumnFit): (t: real)
    ensures t >= 0.0
    ensures q == x ==> t == 0.0
  {
    Statistics.Square((q - fit.mean) - (x - fit.mean)) / Scale2(fit)
  }

  /** The squared standardized distance from the query to one row; null when
      the row misses a metric or a column had nothing to fit, as the NaN that
      `cdist` would produce. */
  function SqDistance(query: seq<real>, metrics: seq<Option<real>>, fits: seq<Option<ColumnFit>>): (d: Option<real>)
    requires |query| == |metrics| == |fits|
    ensures d.Some? <==> forall k :: 0 <= k < |query| ==> metrics[k].Some? && fits[k].Some?
    ensures d.Some? ==> d.value >= 0.0
    ensures d.Some? && (forall k :: 0 <= k < |query| ==> metrics[k].value == query[k]) ==> d.value == 0.0
    decreases |query|
  {
    if |query| == 0 then Some(0.0)
    else
      var rest := SqDistance(query[1..], metrics[1..], fits[1..]);
      assert forall k :: 0 < k < |query| ==> metrics[k] == metrics[1..][k - 1] && fits[k] == fits[1..][k - 1] && query[k] == query[1..][k - 1];
      match (metrics[0], fits[0], rest)
      case (Some(x), Some(fit), Some(d)) => Some(Term(query[0], x, fit) + d)
      case _ => None
  }

  /** Reference reading of the distance: the per-metric squared gaps
      between query and row, each over its column's squared scale. */
  function ScaledGaps(query: seq<real>, metrics: seq<Option<real>>, fits: seq<Option<ColumnFit>>): (r: seq<real>)
    requires |query| == |metrics| == |fits|
    requires forall k :: 0 <= k < |query| ==> metrics[k].Some? && fits[k].Some?
    ensures |r| == |query|
    ensures forall k :: 0 <= k < |query| ==> r[k] == Statistics.Square(query[k] - metrics[k].value) / Scale2(fits[k].value)
  {
    seq(|query|, k requires 0 <= k < |query| => Statistics.Square(query[k] - metrics[k].value) / Scale2(fits[k].value))
  }

  /** Standardizing both sides with the same fit leaves the gap over the
      scale: the distance is the sum of the scaled squared gaps, whatever
      the fitted means. */
  lemma {:induction false} SqDistanceIsScaledGapSum(query: seq<real>, metrics: seq<Option<real>>, fits: seq<Option<ColumnFit>>)
    requires |query| == |metrics| == |fits|
    requires SqDistance(query, metrics, fits).Some?
    ensures SqDistance(query, metrics, fits).value == Statistics.Sum(ScaledGaps(query, metrics, fits))
    decreases |query|
  {
    if |query| > 0 {
      SqDistanceIsScaledGapSum(query[1..], metrics[1..], fits[1..]);
      assert ScaledGaps(query, metrics, fits)[1..] == ScaledGaps(query[1..], metrics[1..], fits[1..]);
      var q, x, m := query[0], metrics[0].value, fits[0].value.mean;
      assert (q - m) - (x - m) == q - x;
    }
  }

  /** A pool row with its distance (the `Distance` column). */
  datatype Scored = Scored(player: CombinePlayer, distance: Option<real>)

  /** The order `sort_values(by='Distance')` uses: ascending, nulls last. */
  predicate DistLe(a: Option<real>, b: Option<real>) {
    b.None? || (a.Some? && a.value <= b.value)
  }

  lemma DistLeIsTotalPreorder(a: Option<real>, b: Option<real>, c: Option<real>)
    ensures DistLe(a, a)
    ensures DistLe(a, b) || DistLe(b, a)
    ensures DistLe(a, b) && DistLe(b, c) ==> DistLe(a, c)
  {
  }

  predicate Sorted(xs: seq<Scored>) {
    forall i, j :: 0 <= i < j < |xs| ==> DistLe(xs[i].distance, xs[j].distance)
  }

  /** Every pool row scored against the query, with the fit of the pool
      used for the rows and the query alike. */
  function Score(query: seq<real>, pool: seq<CombinePlayer>): (r: seq<Scored>)
    requires |query| == MetricCount
    ensures |r| == |pool|
    ensures forall i :: 0 <= i < |pool| ==>
      r[i].player == pool[i] && r[i].distance == SqDistance(query, Metrics(pool[i]), Fit(pool))
  {
    var fits := Fit(pool);
    seq(|pool|, i requires 0 <= i < |pool| => Scored(pool[i], SqDistance(query, Metrics(pool[i]), fits)))
  }

  /** `x` put into a sorted list before the first entry it does not follow. */
  function Insert(x: Scored, xs: seq<Scored>): (r: seq<Scored>)
    requires Sorted(xs)
    ensures Sorted(r)
    ensures multiset(r) == multiset(xs) + multiset{x}
    decreases |xs|
  {
    if |xs| == 0 then [x]
    else if DistLe(x.distance, xs[0].distance) then
      assert forall j :: 0 <= j < |xs| ==> DistLe(xs[0].distance, xs[j].distance);
      [x] + xs
    else
      assert xs == [xs[0]] + xs[1..];
      var rest := Insert(x, xs[1..]);
      assert forall y :: y in multiset(rest) ==> y == x || y in xs[1..];
      assert forall j :: 0 <= j < |rest| ==> rest[j] in multiset(rest);
      assert forall y :: y in xs[1..] ==> DistLe(xs[0].distance, y.distance);
      [xs[0]] + rest
  }

  /** A sort by distance: the same rows, nulls last. Tied rows may come in
      any order; nothing below depends on which. */
  function Sort(xs: seq<Scored>): (r: seq<Scored>)
    ensures Sorted(r)
    ensures multiset(r) == multiset(xs)
    decreases |xs|
  {
    if |xs| == 0 then []
    else
      assert xs == [xs[0]] + xs[1..];
      Insert(xs[0], Sort(xs[1..]))
  }

  /** How many rows `head(n)` keeps out of `len`: the first `n`, or for a
      negative `n` all but the last `-n`. */
  function HeadCount(n: int, len: nat): (h: nat)
    ensures h <= len
    ensures n >= 0 ==> h == if n < len then n else len
    ensures n < 0 ==> h == if len + n > 0 then len + n else 0
  {
    if n >= 0 then (if n < len then n else len)
    else if len + n > 0 then len + n else 0
  }

  /** A result row: the `Rank` column, the player and the distance. */
  datatype Ranked = Ranked(rank: nat, player: CombinePlayer, distance: Option<real>)

  /** `insert(0, 'Rank', range(1, len + 1))`. */
  function Number(xs: seq<Scored>): (r: seq<Ranked>)
    ensures |r| == |xs|
    ensures forall i :: 0 <= i < |xs| ==> r[i] == Ranked(i + 1, xs[i].player, xs[i].distance)
  {
    seq(|xs|, i requires 0 <= i < |xs| => Ranked(i + 1, xs[i].player, xs[i].distance))
  }

  /** The ranked rows with the rank dropped again. */
  function Unrank(rs: seq<Ranked>): (r: seq<Scored>)
    ensures |r| == |rs|
    ensures forall i :: 0 <= i < |rs| ==> r[i] == Scored(rs[i].player, rs[i].distance)
  {
    seq(|rs|, i requires 0 <= i < |rs| => Scored(rs[i].player, rs[i].distance))
  }

  /** Why the search raises: the scaler refuses a pool with no row. */
  datatype SimilarityError = EmptyPool

  /** `top` holds rows of `all`, nearest first, and no row of `all` left out
      of it is nearer than a row kept. */
  ghost predicate NearestFirstCut(top: seq<Scored>, all: seq<Scored>) {
    && Sorted(top)
    && multiset(top) <= multiset(all)
    && forall c :: c in multiset(all) - multiset(top) ==>
         forall i :: 0 <= i < |top| ==> DistLe(top[i].distance, c.distance)
  }

  /** `find_similar_players(query, pool, metrics, n)`. */
  function FindSimilar(query: seq<real>, pool: seq<CombinePlayer>, n: int): (r: Result<seq<Ranked>, SimilarityError>)
    requires |query| == MetricCount
    ensures r.Failure? <==> |pool| == 0
    ensures r.Success? ==> |r.value| == HeadCount(n, |pool|)
    ensures r.Success? ==> forall i :: 0 <= i < |r.value| ==> r.value[i].rank == i + 1
    ensures r.Success? ==> NearestFirstCut(Unrank(r.value), Score(query, pool))
  {
    if |pool| == 0 then Failure(EmptyPool)
    else
      var sorted := Sort(Score(query, pool));
      var top := sorted[..HeadCount(n, |sorted|)];
      TopOfSorted(sorted, HeadCount(n, |sorted|));
      assert Unrank(Number(top)) == top;
      NearestFirstCutOfPermutation(top, sorted, Score(query, pool));
      Success(Number(top))
  }

  /** The first `h` rows of a sorted list are sorted, come from it, and none
      of the rows left over is nearer than any row kept. */
  lemma TopOfSorted(sorted: seq<Scored>, h: nat)
    requires Sorted(sorted) && h <= |sorted|
    ensures NearestFirstCut(sorted[..h], sorted)
  {
    assert sorted == sorted[..h] + sorted[h..];
    assert multiset(sorted) - multiset(sorted[..h]) == multiset(sorted[h..]);
    forall c | c in multiset(sorted[h..]) ensures forall i :: 0 <= i < h ==> DistLe(sorted[i].distance, c.distance) {
      var j :| 0 <= j < |sorted[h..]| && sorted[h..][j] == c;
      assert sorted[h + j] == c;
    }
  }

  /** A cut of a list is a cut of any list with the same rows. */
  lemma NearestFirstCutOfPermutation(top: seq<Scored>, all: seq<Scored>, all': seq<Scored>)
    requires NearestFirstCut(top, all) && multiset(all) == multiset(all')
    ensures NearestFirstCut(top, all')
  {
  }

  /** A pool row whose six metrics equal the query is at distance zero, so
      the first-ranked row is at distance zero too (which of several such
      rows comes first is not fixed). */
  lemma ExactMatchRanksFirst(query: seq<real>, pool: seq<CombinePlayer>, n: int, p: nat)
    requires |query| == MetricCount && p < |pool| && n > 0
    requires forall k :: 0 <= k < MetricCount ==> Metrics(pool[p])[k] == Some(query[k])
    ensures FindSimilar(query, pool, n).Success?
    ensures |FindSimilar(query, pool, n).value| > 0
    ensures FindSimilar(query, pool, n).value[0].distance == Some(0.0)
  {
    var scores := Score(query, pool);
    ExactMatchIsAtZero(query, pool, p);
    ScoresAreNonNegative(query, pool);
    var r := FindSimilar(query, pool, n).value;
    NearestFirstStartsAtZero(Unrank(r), scores, p);
  }

  lemma ScoresAreNonNegative(query: seq<real>, pool: seq<CombinePlayer>)
    requires |query| == MetricCount
    ensures forall c :: c in Score(query, pool) && c.distance.Some? ==> c.distance.value >= 0.0
  {
  }

  /** If some row is at distance zero and none is below zero, a nearest-first
      cut starts at distance zero. */
  lemma NearestFirstStartsAtZero(top: seq<Scored>, all: seq<Scored>, p: nat)
    requires |top| > 0 && p < |all| && NearestFirstCut(top, all)
    requires all[p].distance == Some(0.0)
    requires forall c :: c in all && c.distance.Some? ==> c.distance.value >= 0.0
    ensures top[0].distance == Some(0.0)
  {
    FirstIsNearest(top, all, p);
    assert top[0] in multiset(all);
  }

  /** The row equal to the query scores zero: every column it has a value
      in has something fitted. */
  lemma ExactMatchIsAtZero(query: seq<real>, pool: seq<CombinePlayer>, p: nat)
    requires |query| == MetricCount && p < |pool|
    requires forall k :: 0 <= k < MetricCount ==> Metrics(pool[p])[k] == Some(query[k])
    ensures Score(query, pool)[p].distance == Some(0.0)
  {
    RowWithEveryMetricIsFitted(pool, p);
    EqualVectorsAreAtZero(query, Metrics(pool[p]), Fit(pool));
  }

  lemma EqualVectorsAreAtZero(query: seq<real>, metrics: seq<Option<real>>, fits: seq<Option<ColumnFit>>)
    requires |query| == |metrics| == |fits|
    requires forall k :: 0 <= k < |query| ==> metrics[k] == Some(query[k]) && fits[k].Some?
    ensures SqDistance(query, metrics, fits) == Some(0.0)
  {
  }

  /** A row with all six metrics makes every column fittable. */
  lemma RowWithEveryMetricIsFitted(pool: seq<CombinePlayer>, p: nat)
    requires p < |pool|
    requires forall k :: 0 <= k < MetricCount ==> Metrics(pool[p])[k].Some?
    ensures forall k :: 0 <= k < MetricCount ==> Fit(pool)[k].Some?
  {
    forall k | 0 <= k < MetricCount ensures Fit(pool)[k].Some? {
      var col := Column(pool, k);
      assert col[p].Some?;
    }
  }

  /** The first row of a nearest-first cut is no farther than any row of
      the list it was cut from. */
  lemma FirstIsNearest(top: seq<Scored>, all: seq<Scored>, p: nat)
    requires |top| > 0 && p < |all| && NearestFirstCut(top, all)
    ensures DistLe(top[0].distance, all[p].distance)
  {
    if all[p] in multiset(top) {
      var j :| 0 <= j < |top| && top[j] == all[p];
      assert j == 0 || DistLe(top[0].distance, top[j].distance);
    } else {
      assert all[p] in multiset(all) - multiset(top);
    }
  }

  /** Fitted on the pool, every column's centred values sum (so average) to
      zero: the scaler subtracts the column's own mean. */
  lemma FittedColumnIsCentred(pool: seq<CombinePlayer>, k: nat)
    requires k < MetricCount && Fit(pool)[k].Some?
    ensures Statistics.Sum(Statistics.Centered(PresentValues(Column(pool, k)), Fit(pool)[k].value.mean)) == 0.0
  {
    var vs := PresentValues(Column(pool, k));
    Statistics.CenteredColumnSumsToZero(vs);
  }

  /** A column whose present values have spread is fitted with that
      spread, and standardizes to unit variance: its squared scores sum to
      the number of its values. */
  lemma FittedColumnHasUnitVariance(pool: seq<CombinePlayer>, k: nat)
    requires k < MetricCount && |PresentValues(Column(pool, k))| > 0
    requires Statistics.PopVariance(PresentValues(Column(pool, k))) > 0.0
    ensures Fit(pool)[k].Some? && Fit(pool)[k].value.variance > 0.0
    ensures Statistics.SumSquaredScores(PresentValues(Column(pool, k)), Fit(pool)[k].value.mean, Scale2(Fit(pool)[k].value))
      == |PresentValues(Column(pool, k))| as real
  {
    var vs := PresentValues(Column(pool, k));
    Statistics.StandardizedColumnHasUnitVariance(vs);
  }

  /** A column where every present value is `c` fits to mean `c` and
      variance zero, so the scale is one and every value of it standardizes
      to zero. */
  lemma ConstantColumnStandardizesToZero(pool: seq<CombinePlayer>, k: nat, c: real)
    requires k < MetricCount && Fit(pool)[k].Some?
    requires forall i :: 0 <= i < |pool| ==> Metrics(pool[i])[k] in {None, Some(c)}
    ensures Fit(pool)[k].value == ColumnFit(c, 0.0)
    ensures Scale2(Fit(pool)[k].value) == 1.0
  {
    var col := Column(pool, k);
    var vs := PresentValues(col);
    forall i | 0 <= i < |vs| ensures vs[i] == c {
      assert vs[i] in vs;
      assert Some(vs[i]) in col;
    }
    Statistics.ConstantColumn(vs, c);
  }
}
