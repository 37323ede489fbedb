/** The position mean of the new-player page: for one position and one stat,
    the mean of the stat per season over 2010-2023, as `groupby('season')`
    followed by `.mean()` computes it (groups in ascending season order,
    nulls skipped, a group whose values are all null giving NaN). */
module PositionMeans {
  import opened Wrappers
  import opened Columns
  import opened Frames
  import opened Seasons
  import Statistics

  /** One row of the result: a season and its mean, None standing for NaN. */
  datatype SeasonMean = SeasonMean(season: int, mean: Option<real>)

  /** The rows the mean is taken over: the position, seasons 2010-2023.
      A row with no position never matches. */
  function PositionWindow(table: Frame<SeasonRow>, position: string): (w: Frame<SeasonRow>)
    ensures forall e :: e in w <==>
      e in table && e.row.position == Some(position) && FirstSeason <= e.row.season <= LastSeason
  {
    Where(table, AtPositionInWindow(position))
  }

  /** The row tests as function values, so that every use names the same function. */
  function AtPositionInWindow(position: string): SeasonRow -> bool {
    (row: SeasonRow) => row.position == Some(position) && FirstSeason <= row.season <= LastSeason
  }

  function InSeason(season: int): SeasonRow -> bool {
    (row: SeasonRow) => row.season == season
  }

  function AtPositionInSeason(position: string, season: int): SeasonRow -> bool {
    (row: SeasonRow) => row.position == Some(position) && row.season == season
  }

  /** The column of `stat`, in frame order. */
  function StatColumn(f: Frame<SeasonRow>, stat: Stat): (c: seq<Option<real>>)
    ensures |c| == |f|
    ensures forall i :: 0 <= i < |f| ==> c[i] == StatValue(f[i].row.stats, stat)
  {
    seq(|f|, i requires 0 <= i < |f| => StatValue(f[i].row.stats, stat))
  }

  /** The mean of the non-null values of `stat` in `group`; None when there are none. */
  function GroupMean(group: Frame<SeasonRow>, stat: Stat): Option<real> {
    var vs := PresentValues(StatColumn(group, stat));
    if |vs| == 0 then None else Some(Statistics.Mean(vs))
  }

  /** The position's rows of one season, taken straight from the table. */
  function GroupRows(table: Frame<SeasonRow>, position: string, season: int): (g: Frame<SeasonRow>)
    ensures forall e :: e in g <==> e in table && e.row.position == Some(position) && e.row.season == season
  {
    Where(table, AtPositionInSeason(position, season))
  }

  /** The non-null values a season's mean is taken over, every row counted. */
  function GroupValues(table: Frame<SeasonRow>, position: string, season: int, stat: Stat): seq<real> {
    PresentValues(StatColumn(GroupRows(table, position, season), stat))
  }

  /** The position has a row in that season, within 2010-2023. */
  ghost predicate Fielded(table: Frame<SeasonRow>, position: string, season: int) {
    && FirstSeason <= season <= LastSeason
    && exists e :: e in table && e.row.position == Some(position) && e.row.season == season
  }

  ghost function SeasonsListed(r: seq<SeasonMean>): set<int> {
    set m | m in r :: m.season
  }

  /** No row of the position in that season has a value for `stat`. */
  ghost predicate AllNull(table: Frame<SeasonRow>, position: string, season: int, stat: Stat) {
    forall e :: e in table && e.row.position == Some(position) && e.row.season == season ==>
      StatValue(e.row.stats, stat).None?
  }

  /** `m` is the groupby-mean entry of its season: NaN exactly when every
      value is null, otherwise the mean of the non-null values. */
  ghost predicate DescribesSeason(table: Frame<SeasonRow>, position: string, stat: Stat, m: SeasonMean) {
    && (m.mean.None? <==> AllNull(table, position, m.season, stat))
    && (m.mean.Some? ==>
          |GroupValues(table, position, m.season, stat)| > 0
          && m.mean.value == Statistics.Mean(GroupValues(table, position, m.season, stat)))
  }

  lemma GroupMeanDescribesSeason(table: Frame<SeasonRow>, position: string, stat: Stat, m: SeasonMean)
    requires m.mean == GroupMean(GroupRows(table, position, m.season), stat)
    ensures DescribesSeason(table, position, stat, m)
  {
    AllNullIffNoValues(table, position, m.season, stat);
  }

  /** A season has no value to average exactly when every one of its rows is null. */
  lemma AllNullIffNoValues(table: Frame<SeasonRow>, position: string, season: int, stat: Stat)
    ensures AllNull(table, position, season, stat) <==> |GroupValues(table, position, season, stat)| == 0
  {
    var g := GroupRows(table, position, season);
    var c := StatColumn(g, stat);
    if AllNull(table, position, season, stat) {
      forall i | 0 <= i < |c| ensures c[i].None? {
        assert g[i] in g;
      }
    } else {
      var e :| e in table && e.row.position == Some(position) && e.row.season == season
        && StatValue(e.row.stats, stat).Some?;
      assert e in g;
      var i :| 0 <= i < |g| && g[i] == e;
      assert c[i].Some?;
    }
  }

  /** The seasons from `year` on that have a row in `w`, ascending: the
      group keys of `groupby('season')`. */
  function GroupSeasons(w: Frame<SeasonRow>, year: int): (r: seq<int>)
    requires FirstSeason <= year <= LastSeason + 1
    ensures forall i, j :: 0 <= i < j < |r| ==> r[i] < r[j]
    ensures forall s :: s in r <==> year <= s <= LastSeason && exists e :: e in w && e.row.season == s
    decreases LastSeason + 1 - year
  {
    if year > LastSeason then []
    else
      var rest := GroupSeasons(w, year + 1);
      if exists e :: e in w && e.row.season == year then
        assert forall j :: 0 <= j < |rest| ==> rest[j] in rest;
        [year] + rest
      else
        rest
  }

  /** `df[(position) & (2010 <= season <= 2023)].groupby('season')[stat].mean()`:
      one entry per season the position fielded a row in, ascending; the mean
      is absent exactly when every row of that season has a null stat, and
      otherwise is the mean over every non-null value of that season. */
  function PositionMeans(table: Frame<SeasonRow>, position: string, stat: Stat): (r: seq<SeasonMean>)
    ensures forall i, j :: 0 <= i < j < |r| ==> r[i].season < r[j].season
    ensures forall s :: s in SeasonsListed(r) <==> Fielded(table, position, s)
    ensures forall m :: m in r ==> DescribesSeason(table, position, stat, m)
  {
    var w := PositionWindow(table, position);
    var seasons := GroupSeasons(w, FirstSeason);
    var r := seq(|seasons|, i requires 0 <= i < |seasons| => SeasonMean(seasons[i], GroupMean(Where(w, InSeason(seasons[i])), stat)));
    PositionMeansSound(table, position, stat, seasons, r);
    r
  }

  lemma PositionMeansSound(table: Frame<SeasonRow>, position: string, stat: Stat, seasons: seq<int>, r: seq<SeasonMean>)
    requires seasons == GroupSeasons(PositionWindow(table, position), FirstSeason)
    requires |r| == |seasons|
    requires forall i :: 0 <= i < |r| ==>
      r[i] == SeasonMean(seasons[i], GroupMean(Where(PositionWindow(table, position), InSeason(seasons[i])), stat))
    ensures forall i, j :: 0 <= i < j < |r| ==> r[i].season < r[j].season
    ensures forall s :: s in SeasonsListed(r) <==> Fielded(table, position, s)
    ensures forall m :: m in r ==> DescribesSeason(table, position, stat, m)
  {
    ListedSeasons(table, position, seasons, r);
    forall m | m in r ensures DescribesSeason(table, position, stat, m) {
      var i :| 0 <= i < |r| && r[i] == m;
      assert seasons[i] in seasons;
      SeasonEntryDescribes(table, position, stat, m);
    }
  }

  lemma ListedSeasons(table: Frame<SeasonRow>, position: string, seasons: seq<int>, r: seq<SeasonMean>)
    requires seasons == GroupSeasons(PositionWindow(table, position), FirstSeason)
    requires |r| == |seasons|
    requires forall i :: 0 <= i < |r| ==> r[i].season == seasons[i]
    ensures forall s :: s in SeasonsListed(r) <==> Fielded(table, position, s)
  {
    forall s ensures s in SeasonsListed(r) <==> s in seasons {
      if s in seasons {
        var i :| 0 <= i < |seasons| && seasons[i] == s;
        assert r[i] in r;
      }
    }
  }

  lemma SeasonEntryDescribes(table: Frame<SeasonRow>, position: string, stat: Stat, m: SeasonMean)
    requires FirstSeason <= m.season <= LastSeason
    requires m.mean == GroupMean(Where(PositionWindow(table, position), InSeason(m.season)), stat)
    ensures DescribesSeason(table, position, stat, m)
  {
    WhereWhere(table, AtPositionInWindow(position), InSeason(m.season), AtPositionInSeason(position, m.season));
    GroupMeanDescribesSeason(table, position, stat, m);
  }

  /** Filtering twice is filtering once on both conditions: the same rows in
      the same order. */
  lemma {:induction false} WhereWhere(f: Frame<SeasonRow>, p: SeasonRow -> bool, q: SeasonRow -> bool, pq: SeasonRow -> bool)
    requires forall row: SeasonRow :: pq(row) == (p(row) && q(row))
    ensures Where(Where(f, p), q) == Where(f, pq)
    decreases |f|
  {
    if |f| > 0 {
      WhereWhere(f[1..], p, q, pq);
    }
  }

  /** A season's mean lies within the range of that season's values. */
  lemma MeanWithinSeasonRange(table: Frame<SeasonRow>, position: string, stat: Stat, m: SeasonMean, lo: real, hi: real)
    requires DescribesSeason(table, position, stat, m) && m.mean.Some?
    requires forall e ::
      (e in table && e.row.position == Some(position) && e.row.season == m.season && StatValue(e.row.stats, stat).Some?)
      ==> lo <= StatValue(e.row.stats, stat).value <= hi
    ensures lo <= m.mean.value <= hi
  {
    var g := GroupRows(table, position, m.season);
    var vs := GroupValues(table, position, m.season, stat);
    forall k | 0 <= k < |vs| ensures lo <= vs[k] <= hi {
      SeasonValueComesFromRow(table, position, m.season, stat, vs[k]);
    }
    Statistics.MeanWithinBounds(vs, lo, hi);
  }

  /** Every value a season's mean is taken over is the stat of one of the
      position's rows in that season. */
  lemma SeasonValueComesFromRow(table: Frame<SeasonRow>, position: string, season: int, stat: Stat, v: real)
    requires v in GroupValues(table, position, season, stat)
    ensures exists e ::
      e in table && e.row.position == Some(position) && e.row.season == season && StatValue(e.row.stats, stat) == Some(v)
  {
    var g := GroupRows(table, position, season);
    var c := StatColumn(g, stat);
    assert Some(v) in c;
    var k :| 0 <= k < |c| && c[k] == Some(v);
    assert g[k] in g;
  }

  /** When every non-null value of a season is `c`, the season's mean is `c`. */
  lemma ConstantSeasonMean(table: Frame<SeasonRow>, position: string, stat: Stat, m: SeasonMean, c: real)
    requires DescribesSeason(table, position, stat, m) && m.mean.Some?
    requires forall e ::
      (e in table && e.row.position == Some(position) && e.row.season == m.season && StatValue(e.row.stats, stat).Some?)
      ==> StatValue(e.row.stats, stat).value == c
    ensures m.mean == Some(c)
  {
    var vs := GroupValues(table, position, m.season, stat);
    forall k | 0 <= k < |vs| ensures vs[k] == c {
      SeasonValueComesFromRow(table, position, m.season, stat, vs[k]);
    }
    Statistics.ConstantColumn(vs, c);
  }
}
