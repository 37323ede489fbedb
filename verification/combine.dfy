/** The combine table: one row per player with raw imperial measurements, and
    the metric columns derived from them when the table is loaded. */
module Combine {
  import opened Wrappers
  import opened Columns
  import opened Cells
  import opened Conversions

  /** A row as read from the combine CSV. `height` is whatever the cell held;
      the numeric columns are nullable. */
  datatype CombineRow = CombineRow(
    name: string,
    position: Option<string>,
    height: Cell,
    weight: Option<real>,
    forty: Option<real>,
    vertical: Option<real>,
    broadJump: Option<real>,
    bench: Option<real>)

  /** A loaded row: the raw columns plus `Height_cm`, `Weight_kg`,
      `BroadJump_m` and `Vertical_cm`. */
  datatype CombinePlayer = CombinePlayer(
    raw: CombineRow,
    heightCm: Option<real>,
    weightKg: Option<real>,
    broadJumpM: Option<real>,
    verticalCm: Option<real>)

  /** Number of metrics the similarity search compares. */
  const MetricCount: nat := 6

  /** The derived columns of one row, each computed from its raw column
      only. Where the as-written height conversion succeeds, `heightCm` is
      its value; a row where it raises never reaches a loaded table. */
  function Derive(raw: CombineRow): (p: CombinePlayer)
    ensures p.raw == raw
    ensures FeetInchesToCm(raw.height).Success? ==> p.heightCm == FeetInchesToCm(raw.height).value
    ensures p.heightCm.Some? <==> raw.height.Str? && HeightParts(raw.height.s).Some?
    ensures p.weightKg.None? <==> raw.weight.None?
    ensures p.broadJumpM.None? <==> raw.broadJump.None?
    ensures p.verticalCm.None? <==> raw.vertical.None?
    ensures raw.weight.Some? ==> IsRoundedTo(p.weightKg.value, raw.weight.value * KgPerPound)
    ensures raw.broadJump.Some? ==> IsRoundedTo(p.broadJumpM.value, raw.broadJump.value * MetresPerInch)
    ensures raw.vertical.Some? ==> IsRoundedTo(p.verticalCm.value, raw.vertical.value * CmPerInch)
  {
    CombinePlayer(
      raw,
      HeightToCm(raw.height),
      PoundsToKg(raw.weight),
      InchesToM(raw.broadJump),
      InchesToCm(raw.vertical))
  }

  /** The height conversion raises on row `i`, and on no earlier row. */
  ghost predicate FirstRaise(rows: seq<CombineRow>, i: int) {
    && 0 <= i < |rows|
    && FeetInchesToCm(rows[i].height).Failure?
    && forall j :: 0 <= j < i ==> FeetInchesToCm(rows[j].height).Success?
  }

  /** A first raise after a row that converts is the first raise of the
      longer table too. */
  lemma FirstRaiseShifts(rows: seq<CombineRow>)
    requires |rows| > 0 && FeetInchesToCm(rows[0].height).Success?
    ensures forall k :: FirstRaise(rows[1..], k) ==> FirstRaise(rows, k + 1)
  {
    forall k | FirstRaise(rows[1..], k) ensures FirstRaise(rows, k + 1) {
      assert forall j :: 0 < j <= k ==> rows[1..][j - 1] == rows[j];
    }
  }

  /** Loading the combine table: `.apply` runs the height conversion over
      every row, so the load raises the error of the first row whose height
      token raises. Otherwise every row is kept, in order, with its derived
      columns. */
  function LoadCombine(rows: seq<CombineRow>): (r: Result<seq<CombinePlayer>, HeightError>)
    ensures r.Failure? <==> exists i :: 0 <= i < |rows| && FeetInchesToCm(rows[i].height).Failure?
    ensures r.Failure? ==> exists i :: FirstRaise(rows, i) && r.error == FeetInchesToCm(rows[i].height).error
    ensures r.Success? ==> |r.value| == |rows|
    ensures r.Success? ==> forall i :: 0 <= i < |rows| ==>
      r.value[i] == Derive(rows[i]) && r.value[i].heightCm == FeetInchesToCm(rows[i].height).value
    decreases |rows|
  {
    if |rows| == 0 then Success([])
    else
      assert forall i :: 0 < i < |rows| ==> rows[1..][i - 1] == rows[i];
      match FeetInchesToCm(rows[0].height)
      case Failure(e) =>
        assert FirstRaise(rows, 0);
        Failure(e)
      case Success(_) =>
        match LoadCombine(rows[1..])
        case Failure(e) =>
          FirstRaiseShifts(rows);
          Failure(e)
        case Success(rest) =>
          var players := [Derive(rows[0])] + rest;
          assert forall i :: 0 < i < |rows| ==> players[i] == rest[i - 1];
          Success(players)
  }

  /** The six compared metrics, in the order the similarity search lists
      them: height (cm), weight (kg), 40-yard time, vertical (cm), broad jump
      (m), bench reps. */
  function Metrics(p: CombinePlayer): (m: seq<Option<real>>)
    ensures |m| == MetricCount
    ensures m[0] == p.heightCm && m[1] == p.weightKg && m[2] == p.raw.forty
    ensures m[3] == p.verticalCm && m[4] == p.broadJumpM && m[5] == p.raw.bench
  {
    [p.heightCm, p.weightKg, p.raw.forty, p.verticalCm, p.broadJumpM, p.raw.bench]
  }

  /** `df[df['Pos'] == position]`: every row of that position, as many times
      as it occurs, and no other row. A row with no position never matches. */
  function PositionPool(table: seq<CombinePlayer>, position: string): (pool: seq<CombinePlayer>)
    ensures forall p :: multiset(pool)[p] == if p.raw.position == Some(position) then multiset(table)[p] else 0
    ensures forall p :: p in pool ==> p.raw.position == Some(position)
    decreases |table|
  {
    if |table| == 0 then []
    else
      var rest := PositionPool(table[1..], position);
      assert table == [table[0]] + table[1..];
      if table[0].raw.position == Some(position) then [table[0]] + rest else rest
  }

  /** Loading with the corrected height conversion: a malformed height token
      becomes a null height and the load never fails. Wherever the as-written
      load succeeds, the two loads give the same table. */
  function LoadCombineCorrected(rows: seq<CombineRow>): (players: seq<CombinePlayer>)
    ensures |players| == |rows|
    ensures forall i :: 0 <= i < |rows| ==> players[i].raw == rows[i]
    ensures forall i :: 0 <= i < |rows| ==> players[i] == Derive(rows[i])
    ensures forall i :: 0 <= i < |rows| ==>
      (players[i].heightCm.Some? <==> rows[i].height.Str? && HeightParts(rows[i].height.s).Some?)
    ensures LoadCombine(rows).Success? ==> LoadCombine(rows).value == players
  {
    seq(|rows|, i requires 0 <= i < |rows| => Derive(rows[i]))
  }

  /** The `Pos` column. */
  function PositionColumn(table: seq<CombinePlayer>): (c: seq<Option<string>>)
    ensures |c| == |table|
    ensures forall i :: 0 <= i < |table| ==> c[i] == table[i].raw.position
  {
    seq(|table|, i requires 0 <= i < |table| => table[i].raw.position)
  }

  /** The `player_name` column of the rows at `position`, null elsewhere:
      `df[df['Pos'] == position]['player_name']` with the other rows blanked
      instead of removed, so that row numbers stay those of the table. */
  function NameColumn(table: seq<CombinePlayer>, position: string): (c: seq<Option<string>>)
    ensures |c| == |table|
    ensures forall i :: 0 <= i < |table| ==>
      c[i] == if table[i].raw.position == Some(position) then Some(table[i].raw.name) else None
  {
    seq(|table|, i requires 0 <= i < |table| =>
      if table[i].raw.position == Some(position) then Some(table[i].raw.name) else None)
  }

  /** The position menu of the comparison page: the distinct non-null
      positions, in the order in which they first appear in the table, so
      that the first row's position is the one preselected. */
  function PositionChoices(table: seq<CombinePlayer>): (r: seq<string>)
    ensures forall pos :: pos in r <==> exists p :: p in table && p.raw.position == Some(pos)
    ensures forall pos :: pos in r <==> Some(pos) in PositionColumn(table)
    ensures forall i, j :: 0 <= i < j < |r| ==> r[i] != r[j]
    ensures forall i, j :: 0 <= i < j < |r| ==>
      FirstAt(PositionColumn(table), Some(r[i])) < FirstAt(PositionColumn(table), Some(r[j]))
  {
    var column := PositionColumn(table);
    assert forall pos :: Some(pos) in column <==> exists p :: p in table && p.raw.position == Some(pos) by {
      forall pos ensures Some(pos) in column <==> exists p :: p in table && p.raw.position == Some(pos) {
        if exists p :: p in table && p.raw.position == Some(pos) {
          var p :| p in table && p.raw.position == Some(pos);
          var i :| 0 <= i < |table| && table[i] == p;
          assert column[i] == Some(pos);
        }
        if Some(pos) in column {
          var i :| 0 <= i < |column| && column[i] == Some(pos);
          assert table[i] in table;
        }
      }
    }
    DistinctPresent(column)
  }

  /** The player menus of the comparison page: the distinct names at a
      position, in the order in which they first appear in the table. */
  function PlayerChoices(table: seq<CombinePlayer>, position: string): (r: seq<string>)
    ensures forall n :: n in r <==> exists p :: p in table && p.raw.position == Some(position) && p.raw.name == n
    ensures forall n :: n in r <==> Some(n) in NameColumn(table, position)
    ensures forall i, j :: 0 <= i < j < |r| ==> r[i] != r[j]
    ensures forall i, j :: 0 <= i < j < |r| ==>
      FirstAt(NameColumn(table, position), Some(r[i])) < FirstAt(NameColumn(table, position), Some(r[j]))
  {
    var column := NameColumn(table, position);
    assert forall n :: Some(n) in column <==> exists p :: p in table && p.raw.position == Some(position) && p.raw.name == n by {
      forall n ensures Some(n) in column <==> exists p :: p in table && p.raw.position == Some(position) && p.raw.name == n {
        if exists p :: p in table && p.raw.position == Some(position) && p.raw.name == n {
          var p :| p in table && p.raw.position == Some(position) && p.raw.name == n;
          var i :| 0 <= i < |table| && table[i] == p;
          assert column[i] == Some(n);
        }
        if Some(n) in column {
          var i :| 0 <= i < |column| && column[i] == Some(n);
          assert table[i] in table;
        }
      }
    }
    DistinctPresent(column)
  }
}
