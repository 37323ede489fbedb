/** Operations on one column of a table: `.dropna()` and `.unique()`, and the
    position at which a value first appears, which fixes the order of both. */
module Columns {
  import opened Wrappers

  /** Where `x` first occurs in `s`. */
  function FirstAt<T(==)>(s: seq<T>, x: T): (k: nat)
    requires x in s
    ensures k < |s| && s[k] == x
    ensures forall j :: 0 <= j < k ==> s[j] != x
    decreases |s|
  {
    if s[0] == x then 0
    else
      assert x in s[1..] by { var i :| 0 <= i < |s| && s[i] == x; assert s[1..][i - 1] == x; }
      1 + FirstAt(s[1..], x)
  }

  /** `.dropna()` on a column: the present values in order, each as many
      times as it occurs. Two values first appear in the result in the same
      order as they first appear in the column. */
  function PresentValues<T(==,!new)>(column: seq<Option<T>>): (r: seq<T>)
    ensures |r| <= |column|
    ensures forall x :: multiset(r)[x] == multiset(column)[Some(x)]
    ensures forall x :: x in r <==> Some(x) in column
    ensures |r| == 0 <==> forall i :: 0 <= i < |column| ==> column[i].None?
    decreases |column|
  {
    if |column| == 0 then []
    else
      var rest := PresentValues(column[1..]);
      assert column == [column[0]] + column[1..];
      assert forall i :: 0 < i < |column| ==> column[i] == column[1..][i - 1];
      match column[0]
      case Some(x) => [x] + rest
      case None => rest
  }

  /** `.dropna()` keeps the order in which two values first appear. */
  lemma {:induction false} PresentValuesKeepOrder<T(!new)>(column: seq<Option<T>>, x: T, y: T)
    requires x in PresentValues(column) && y in PresentValues(column)
    ensures FirstAt(PresentValues(column), x) < FirstAt(PresentValues(column), y)
        <==> FirstAt(column, Some(x)) < FirstAt(column, Some(y))
    decreases |column|
  {
    var r := PresentValues(column);
    var rest := PresentValues(column[1..]);
    assert column == [column[0]] + column[1..];
    if column[0] == Some(x) || column[0] == Some(y) {
      assert r[0] == column[0].value;
    } else {
      assert Some(x) in column[1..] && Some(y) in column[1..];
      if column[0].Some? {
        assert r == [column[0].value] + rest && r[1..] == rest;
        assert x in rest && y in rest;
      }
      PresentValuesKeepOrder(column[1..], x, y);
    }
  }

  /** `.unique()` continued after the values in `seen` were already listed. */
  function UniqueAfter<T(==,!new)>(values: seq<T>, seen: set<T>): (r: seq<T>)
    ensures forall x :: x in r <==> x in values && x !in seen
    ensures forall i, j :: 0 <= i < j < |r| ==> r[i] != r[j]
    ensures forall i, j :: 0 <= i < j < |r| ==> FirstAt(values, r[i]) < FirstAt(values, r[j])
    decreases |values|
  {
    if |values| == 0 then []
    else
      assert forall x :: x in values <==> x == values[0] || x in values[1..];
      if values[0] in seen then
        var rest := UniqueAfter(values[1..], seen);
        assert forall j :: 0 <= j < |rest| ==> rest[j] in rest;
        rest
      else
        var rest := UniqueAfter(values[1..], seen + {values[0]});
        assert forall j :: 0 <= j < |rest| ==> rest[j] in rest;
        [values[0]] + rest
  }

  /** `.unique()`: each value once, in order of first appearance. */
  function Unique<T(==,!new)>(values: seq<T>): (r: seq<T>)
    ensures forall x :: x in r <==> x in values
    ensures forall i, j :: 0 <= i < j < |r| ==> r[i] != r[j]
    ensures forall i, j :: 0 <= i < j < |r| ==> FirstAt(values, r[i]) < FirstAt(values, r[j])
  {
    UniqueAfter(values, {})
  }

  /** `.dropna().unique()`: the present values, each once, in the order in
      which they first appear in the column. */
  function DistinctPresent<T(==,!new)>(column: seq<Option<T>>): (r: seq<T>)
    ensures forall x :: x in r <==> Some(x) in column
    ensures forall i, j :: 0 <= i < j < |r| ==> r[i] != r[j]
    ensures forall i, j :: 0 <= i < j < |r| ==> FirstAt(column, Some(r[i])) < FirstAt(column, Some(r[j]))
  {
    var present := PresentValues(column);
    var r := Unique(present);
    forall i, j | 0 <= i < j < |r| ensures FirstAt(column, Some(r[i])) < FirstAt(column, Some(r[j])) {
      assert r[i] in r && r[j] in r;
      PresentValuesKeepOrder(column, r[i], r[j]);
    }
    r
  }
}
