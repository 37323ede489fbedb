/** The season table: loading with season coercion, the 2010-2023 window for
    selected players, duplicate and null removal before plotting, the
    "no seasonal data" warnings, and the per-position stat menu. */
module Seasons {
  import opened Wrappers
  import opened Cells
  import opened Frames
  import Text

  /** The valid season range, inclusive at both ends. */
  const FirstSeason: int := 2010
  const LastSeason: int := 2023

  /** The seven season statistics. */
  datatype Stat =
    | ReceivingYards | ReceivingTds | Receptions | YardsAfterCatch
    | Carries | RushingYards | RushingTds

  predicate IsReceiving(s: Stat) {
    s.ReceivingYards? || s.ReceivingTds? || s.Receptions? || s.YardsAfterCatch?
  }

  predicate IsRushing(s: Stat) {
    s.Carries? || s.RushingYards? || s.RushingTds?
  }

  /** One season's statistics, each nullable. */
  datatype StatLine = StatLine(
    receivingYards: Option<real>,
    receivingTds: Option<real>,
    receptions: Option<real>,
    yardsAfterCatch: Option<real>,
    carries: Option<real>,
    rushingYards: Option<real>,
    rushingTds: Option<real>)

  function StatValue(line: StatLine, stat: Stat): Option<real> {
    match stat
    case ReceivingYards => line.receivingYards
    case ReceivingTds => line.receivingTds
    case Receptions => line.receptions
    case YardsAfterCatch => line.yardsAfterCatch
    case Carries => line.carries
    case RushingYards => line.rushingYards
    case RushingTds => line.rushingTds
  }

  /** A row as read from the season CSV: the season cell is not yet a number. */
  datatype RawSeasonRow = RawSeasonRow(player: string, position: Option<string>, season: Cell, stats: StatLine)

  /** A loaded row: the season is an integer. */
  datatype SeasonRow = SeasonRow(player: string, position: Option<string>, season: int, stats: StatLine)

  /** `to_numeric(errors='coerce')` on the season, then `astype(int)` if it
      survived `dropna`. */
  function CoerceRow(raw: RawSeasonRow): (r: Option<SeasonRow>)
    ensures r.Some? <==> ToNumeric(raw.season).Some?
    ensures r.Some? ==> r.value.player == raw.player && r.value.position == raw.position
    ensures r.Some? ==> r.value.stats == raw.stats
    ensures r.Some? ==> r.value.season == TruncateToInt(ToNumeric(raw.season).value)
  {
    match ToNumeric(raw.season)
    case Some(x) => Some(SeasonRow(raw.player, raw.position, TruncateToInt(x), raw.stats))
    case None => None
  }

  /** What loading rows `from` onwards guarantees. */
  ghost predicate LoadedFrom(t: Frame<SeasonRow>, raw: seq<RawSeasonRow>, from: nat) {
    && Ordered(t)
    && (forall e :: e in t ==> from <= e.index < |raw| && CoerceRow(raw[e.index]) == Some(e.row))
    && (forall i :: from <= i < |raw| ==> (i in Indices(t) <==> CoerceRow(raw[i]).Some?))
  }

  function LoadSeasonsFrom(raw: seq<RawSeasonRow>, from: nat): (t: Frame<SeasonRow>)
    requires from <= |raw|
    ensures LoadedFrom(t, raw, from)
    decreases |raw| - from
  {
    if from == |raw| then []
    else
      var rest := LoadSeasonsFrom(raw, from + 1);
      match CoerceRow(raw[from])
      case Some(row) =>
        LoadedKeep(raw, from, row, rest);
        [Entry(from, row)] + rest
      case None => rest
  }

  /** A surviving row goes in front of the rows loaded after it. */
  lemma LoadedKeep(raw: seq<RawSeasonRow>, from: nat, row: SeasonRow, rest: Frame<SeasonRow>)
    requires from < |raw| && CoerceRow(raw[from]) == Some(row)
    requires LoadedFrom(rest, raw, from + 1)
    ensures LoadedFrom([Entry(from, row)] + rest, raw, from)
  {
    assert forall j :: 0 <= j < |rest| ==> rest[j] in rest;
    assert forall e :: e in [Entry(from, row)] + rest <==> e == Entry(from, row) || e in rest;
    OrderedPrepend(Entry(from, row), rest);
  }

  /** Season loading: exactly the rows whose season is not numeric are
      dropped; every other row keeps its index and order, with the season
      coerced to an integer. */
  function LoadSeasons(raw: seq<RawSeasonRow>): (t: Frame<SeasonRow>)
    ensures Ordered(t)
    ensures forall e :: e in t ==> e.index < |raw| && CoerceRow(raw[e.index]) == Some(e.row)
    ensures forall i :: 0 <= i < |raw| ==> (i in Indices(t) <==> ToNumeric(raw[i].season).Some?)
  {
    LoadSeasonsFrom(raw, 0)
  }

  /** A season whose cell holds a plain integer string is kept, with that value. */
  lemma IntegerSeasonIsKept(raw: seq<RawSeasonRow>, i: nat, year: int)
    requires i < |raw| && raw[i].season == Str(Text.ShowInt(year))
    ensures exists e :: e in LoadSeasons(raw) && e.index == i && e.row.season == year
  {
    IntegerStringsCoerceToThemselves(year);
    var t := LoadSeasons(raw);
    assert i in Indices(t);
    var e :| e in t && e.index == i;
    assert CoerceRow(raw[i]) == Some(e.row);
  }

  /** The rows a seasonal view looks at: selected players, seasons 2010-2023. */
  function SeasonWindow(table: Frame<SeasonRow>, players: seq<string>): (r: Frame<SeasonRow>)
    ensures forall e :: e in r <==>
      e in table && e.row.player in players && FirstSeason <= e.row.season <= LastSeason
    ensures Ordered(table) ==> Ordered(r)
  {
    Where(table, (row: SeasonRow) => row.player in players && FirstSeason <= row.season <= LastSeason)
  }

  /** The values of `stats`, in order, for one row. */
  function StatValues(line: StatLine, stats: seq<Stat>): (vs: seq<Option<real>>)
    ensures |vs| == |stats|
    ensures forall i :: 0 <= i < |stats| ==> vs[i] == StatValue(line, stats[i])
  {
    seq(|stats|, i requires 0 <= i < |stats| => StatValue(line, stats[i]))
  }

  /** The duplicate key: player, season and the values of `stats`. */
  datatype SeasonKey = SeasonKey(player: string, season: int, values: seq<Option<real>>)

  function Key(row: SeasonRow, stats: seq<Stat>): SeasonKey {
    SeasonKey(row.player, row.season, StatValues(row.stats, stats))
  }

  ghost function KeysIn(f: Frame<SeasonRow>, stats: seq<Stat>): set<SeasonKey> {
    set e | e in f :: Key(e.row, stats)
  }

  /** No value of `stats` is null in the row. */
  predicate Complete(row: SeasonRow, stats: seq<Stat>) {
    forall i :: 0 <= i < |stats| ==> StatValue(row.stats, stats[i]).Some?
  }

  /** The key and completeness tests as function values, so that every use
      names the same function. */
  function KeyOn(stats: seq<Stat>): SeasonRow -> SeasonKey {
    (row: SeasonRow) => Key(row, stats)
  }

  function CompleteOn(stats: seq<Stat>): SeasonRow -> bool {
    (row: SeasonRow) => Complete(row, stats)
  }

  /** Two rows with the same key are both complete or both not. */
  lemma CompleteIsDecidedByKey(a: SeasonRow, b: SeasonRow, stats: seq<Stat>)
    requires Key(a, stats) == Key(b, stats)
    ensures Complete(a, stats) <==> Complete(b, stats)
  {
    assert forall i :: 0 <= i < |stats| ==>
      StatValue(a.stats, stats[i]) == StatValues(a.stats, stats)[i] == StatValues(b.stats, stats)[i] == StatValue(b.stats, stats[i]);
  }

  /** `drop_duplicates(subset=['player_name', 'season'] + stats)` followed by
      `dropna(subset=stats)`: rows of `f` with every stat present, one per
      key, the first of each key, in order; no complete row's key is lost. */
  function CleanView(f: Frame<SeasonRow>, stats: seq<Stat>): (r: Frame<SeasonRow>)
    ensures forall e :: e in r ==> e in f && Complete(e.row, stats)
    ensures forall i, j :: 0 <= i < j < |r| ==> Key(r[i].row, stats) != Key(r[j].row, stats)
    ensures forall e :: e in f && Complete(e.row, stats) ==> Key(e.row, stats) in KeysIn(r, stats)
    ensures Ordered(f) ==> Ordered(r)
    ensures Ordered(f) ==> forall e, e' :: e in r && e' in f && Key(e'.row, stats) == Key(e.row, stats) ==> e.index <= e'.index
  {
    var d := DropDuplicates(f, KeyOn(stats));
    var r := Where(d, CompleteOn(stats));
    CleanViewSound(f, stats, d, r);
    CleanViewKeepsFirst(f, stats, d, r);
    CleanViewCovers(f, stats, d, r);
    r
  }

  lemma CleanViewSound(f: Frame<SeasonRow>, stats: seq<Stat>, d: Frame<SeasonRow>, r: Frame<SeasonRow>)
    requires forall e :: e in d ==> e in f
    requires forall i, j :: 0 <= i < j < |d| ==> KeyOn(stats)(d[i].row) != KeyOn(stats)(d[j].row)
    requires forall e :: e in r <==> e in d && CompleteOn(stats)(e.row)
    requires NoRepeats(d) ==> NoRepeats(r)
    ensures forall e :: e in r ==> e in f && Complete(e.row, stats)
    ensures forall i, j :: 0 <= i < j < |r| ==> Key(r[i].row, stats) != Key(r[j].row, stats)
  {
    assert NoRepeats(d) by {
      forall i, j | 0 <= i < j < |d| ensures d[i] != d[j] {
        assert KeyOn(stats)(d[i].row) != KeyOn(stats)(d[j].row);
      }
    }
    forall i, j | 0 <= i < j < |r| ensures Key(r[i].row, stats) != Key(r[j].row, stats) {
      assert r[i] in r && r[j] in r;
      var a :| 0 <= a < |d| && d[a] == r[i];
      var b :| 0 <= b < |d| && d[b] == r[j];
      assert r[i] != r[j];
      if a < b {
        assert KeyOn(stats)(d[a].row) != KeyOn(stats)(d[b].row);
      } else {
        assert KeyOn(stats)(d[b].row) != KeyOn(stats)(d[a].row);
      }
    }
  }

  lemma CleanViewKeepsFirst(f: Frame<SeasonRow>, stats: seq<Stat>, d: Frame<SeasonRow>, r: Frame<SeasonRow>)
    requires forall e :: e in r ==> e in d
    requires Ordered(f) ==> Ordered(d)
    requires Ordered(f) ==> forall e, e' :: e in d && e' in f && KeyOn(stats)(e'.row) == KeyOn(stats)(e.row) ==> e.index <= e'.index
    requires Ordered(d) ==> Ordered(r)
    ensures Ordered(f) ==> Ordered(r)
    ensures Ordered(f) ==> forall e, e' :: e in r && e' in f && Key(e'.row, stats) == Key(e.row, stats) ==> e.index <= e'.index
  {
  }

  lemma CleanViewCovers(f: Frame<SeasonRow>, stats: seq<Stat>, d: Frame<SeasonRow>, r: Frame<SeasonRow>)
    requires KeysOf(d, KeyOn(stats)) == KeysOf(f, KeyOn(stats))
    requires forall e :: e in r <==> e in d && CompleteOn(stats)(e.row)
    ensures forall e :: e in f && Complete(e.row, stats) ==> Key(e.row, stats) in KeysIn(r, stats)
  {
    forall e | e in f && Complete(e.row, stats) ensures Key(e.row, stats) in KeysIn(r, stats) {
      assert KeyOn(stats)(e.row) in KeysOf(f, KeyOn(stats));
      var kept :| kept in d && KeyOn(stats)(kept.row) == KeyOn(stats)(e.row);
      CompleteIsDecidedByKey(kept.row, e.row, stats);
      assert kept in r;
    }
  }

  /** The player has at least one row in the view. */
  ghost predicate HasRows(view: Frame<SeasonRow>, player: string) {
    exists e :: e in view && e.row.player == player
  }

  function NoDataForBoth(player1: string, player2: string): string {
    "For both " + player1 + " and " + player2 + ", no seasonal performance data is available."
  }

  function NoDataFor(player: string): string {
    "For " + player + ", no seasonal performance data is available."
  }

  function RowsOf(view: Frame<SeasonRow>, player: string): (r: Frame<SeasonRow>)
    ensures |r| == 0 <==> !HasRows(view, player)
  {
    var r := Where(view, (row: SeasonRow) => row.player == player);
    assert |r| > 0 ==> r[0] in r;
    r
  }

  /** The "no seasonal data" warnings: one combined warning when neither
      player has a row, one naming the player when exactly one has none, and
      nothing when both have rows. */
  function SeasonWarnings(view: Frame<SeasonRow>, player1: string, player2: string): (w: seq<string>)
    ensures |w| <= 1
    ensures w == [] <==> HasRows(view, player1) && HasRows(view, player2)
    ensures !HasRows(view, player1) && !HasRows(view, player2) ==> w == [NoDataForBoth(player1, player2)]
    ensures !HasRows(view, player1) && HasRows(view, player2) ==> w == [NoDataFor(player1)]
    ensures HasRows(view, player1) && !HasRows(view, player2) ==> w == [NoDataFor(player2)]
  {
    var empty1 := |RowsOf(view, player1)| == 0;
    var empty2 := |RowsOf(view, player2)| == 0;
    if empty1 && empty2 then [NoDataForBoth(player1, player2)]
    else if empty1 then [NoDataFor(player1)]
    else if empty2 then [NoDataFor(player2)]
    else []
  }

  /** The four receiving columns the comparison page cleans and plots. */
  const ReceivingStats: seq<Stat> := [ReceivingYards, ReceivingTds, Receptions, YardsAfterCatch]

  /** The player has a row in the 2010-2023 window of the table. */
  ghost predicate Active(table: Frame<SeasonRow>, player: string) {
    exists e :: e in table && e.row.player == player && FirstSeason <= e.row.season <= LastSeason
  }

  /** What the comparison page derives for two players: the warnings, and the
      rows it plots (absent when neither player has data). */
  datatype SeasonalComparison = SeasonalComparison(warnings: seq<string>, plotted: Option<Frame<SeasonRow>>)

  /** The data part of `plot_seasonal_performance`. */
  function CompareSeasons(table: Frame<SeasonRow>, player1: string, player2: string): (c: SeasonalComparison)
    ensures c.warnings == [] <==> Active(table, player1) && Active(table, player2)
    ensures !Active(table, player1) && !Active(table, player2) ==> c.warnings == [NoDataForBoth(player1, player2)]
    ensures !Active(table, player1) && Active(table, player2) ==> c.warnings == [NoDataFor(player1)]
    ensures Active(table, player1) && !Active(table, player2) ==> c.warnings == [NoDataFor(player2)]
    ensures c.plotted.None? <==> !Active(table, player1) && !Active(table, player2)
    ensures c.plotted.Some? ==> PlotsCleanRows(table, [player1, player2], ReceivingStats, c.plotted.value)
  {
    var window := SeasonWindow(table, [player1, player2]);
    WindowRowsAreActive(table, [player1, player2], player1);
    WindowRowsAreActive(table, [player1, player2], player2);
    var warnings := SeasonWarnings(window, player1, player2);
    if HasAnyRows(window, player1, player2) then
      var r := CleanView(window, ReceivingStats);
      CleanWindowRows(table, [player1, player2], ReceivingStats);
      SeasonalComparison(warnings, Some(r))
    else
      SeasonalComparison(warnings, None)
  }

  /** `r` is what a seasonal view plots for `players` and `stats`: rows of the
      table for those players in 2010-2023 with every stat present, one per
      key, the first of each key in table order, and every such key kept. */
  ghost predicate PlotsCleanRows(table: Frame<SeasonRow>, players: seq<string>, stats: seq<Stat>, r: Frame<SeasonRow>) {
    && (forall e :: e in r ==>
          && e in table
          && e.row.player in players
          && FirstSeason <= e.row.season <= LastSeason
          && Complete(e.row, stats))
    && (forall e ::
          (e in table && e.row.player in players && FirstSeason <= e.row.season <= LastSeason && Complete(e.row, stats))
          ==> Key(e.row, stats) in KeysIn(r, stats))
    && (forall i, j :: 0 <= i < j < |r| ==> Key(r[i].row, stats) != Key(r[j].row, stats))
    && (Ordered(table) ==> Ordered(r))
    && (Ordered(table) ==>
          forall e, e' :: e in r && e' in table && Key(e'.row, stats) == Key(e.row, stats) ==> e.index <= e'.index)
  }

  lemma CleanWindowRows(table: Frame<SeasonRow>, players: seq<string>, stats: seq<Stat>)
    ensures PlotsCleanRows(table, players, stats, CleanView(SeasonWindow(table, players), stats))
  {
    var w := SeasonWindow(table, players);
    var r := CleanView(w, stats);
    assert forall e :: e in w <==>
      e in table && e.row.player in players && FirstSeason <= e.row.season <= LastSeason;
    assert forall e, e' :: e in r && e' in table && Key(e'.row, stats) == Key(e.row, stats) ==> e' in w by {
      forall e, e' | e in r && e' in table && Key(e'.row, stats) == Key(e.row, stats) ensures e' in w {
        assert Key(e'.row, stats).player == e'.row.player && Key(e'.row, stats).season == e'.row.season;
      }
    }
  }

  function HasAnyRows(view: Frame<SeasonRow>, player1: string, player2: string): (b: bool)
    ensures b <==> HasRows(view, player1) || HasRows(view, player2)
  {
    |RowsOf(view, player1)| > 0 || |RowsOf(view, player2)| > 0
  }

  lemma WindowRowsAreActive(table: Frame<SeasonRow>, players: seq<string>, player: string)
    requires player in players
    ensures HasRows(SeasonWindow(table, players), player) <==> Active(table, player)
  {
    var w := SeasonWindow(table, players);
    if Active(table, player) {
      var e :| e in table && e.row.player == player && FirstSeason <= e.row.season <= LastSeason;
      assert e in w;
    }
  }

  /** The new-player page's view of one stat for the selected players: the
      window, one row per player, season and stat value, null stats dropped. */
  function SelectedPlayersSeasons(table: Frame<SeasonRow>, selected: seq<string>, stat: Stat): (r: Frame<SeasonRow>)
    ensures PlotsCleanRows(table, selected, [stat], r)
    ensures forall e :: e in r ==> StatValue(e.row.stats, stat).Some?
  {
    var r := CleanView(SeasonWindow(table, selected), [stat]);
    CleanWindowRows(table, selected, [stat]);
    CompleteOnOne(r, stat);
    r
  }

  lemma CompleteOnOne(r: Frame<SeasonRow>, stat: Stat)
    requires forall e :: e in r ==> Complete(e.row, [stat])
    ensures forall e :: e in r ==> StatValue(e.row.stats, stat).Some?
  {
    forall e | e in r ensures StatValue(e.row.stats, stat).Some? {
      assert [stat][0] == stat;
    }
  }

  /** The positions the new-player page offers. */
  const NewPlayerPositions: seq<string> := ["WR", "RB"]

  /** The stat menu for a position: the receiving stats for "WR", the
      rushing stats for "RB", none for any other position. The first entry
      is the one the select box starts on. */
  function StatMenu(position: string): (menu: Option<seq<Stat>>)
    ensures menu.Some? <==> position in NewPlayerPositions
    ensures menu.Some? ==> forall i, j :: 0 <= i < j < |menu.value| ==> menu.value[i] != menu.value[j]
    ensures position == "WR" ==> forall s :: s in menu.value <==> IsReceiving(s)
    ensures position == "RB" ==> forall s :: s in menu.value <==> IsRushing(s)
    ensures position == "WR" ==> |menu.value| == 4 && menu.value[0] == ReceivingYards
    ensures position == "RB" ==> |menu.value| == 3 && menu.value[0] == Carries
  {
    if position == "WR" then Some([ReceivingYards, ReceivingTds, YardsAfterCatch, Receptions])
    else if position == "RB" then Some([Carries, RushingYards, RushingTds])
    else None
  }
}
