/** Values of a CSV cell as pandas holds them before any cleaning: missing
    (NaN), a number, or a string. */
module Cells {
  import opened Wrappers
  import opened Text

  datatype Cell = Missing | Number(x: real) | Str(s: string)

  /** `pd.to_numeric(cell, errors='coerce')`: numbers pass through, numeric
      strings are parsed, everything else becomes NaN (`None`). */
  function ToNumeric(c: Cell): (r: Option<real>)
    ensures c.Missing? ==> r.None?
    ensures c.Number? ==> r == Some(c.x)
    ensures c.Str? ==> (r.Some? <==> IsDecimal(c.s))
    ensures c.Str? ==> r == ParseDecimal(c.s)
    ensures c.Str? && |c.s| > 0 && AllDigits(c.s) ==> r == Some(DigitsValue(c.s) as real)
  {
    match c
    case Missing => None
    case Number(x) => Some(x)
    case Str(s) => ParseDecimal(s)
  }

  /** `astype(int)` on a finite float: truncation toward zero. */
  function TruncateToInt(x: real): (n: int)
    ensures 0.0 <= x ==> 0 <= n && n as real <= x < n as real + 1.0
    ensures x < 0.0 ==> n <= 0 && n as real - 1.0 < x <= n as real
  {
    if x >= 0.0 then x.Floor else -((-x).Floor)
  }

  /** A season written as a plain integer string survives coercion unchanged. */
  lemma IntegerStringsCoerceToThemselves(n: int)
    ensures ToNumeric(Str(ShowInt(n))) == Some(n as real)
    ensures TruncateToInt(ToNumeric(Str(ShowInt(n))).value) == n
  {
    ParseDecimalOfShowInt(n);
  }

  /** A season saved from a float column ("2015.0") coerces and truncates
      to the same season as the integer string. */
  lemma PointZeroStringsCoerceToThemselves(n: int)
    ensures ToNumeric(Str(ShowInt(n) + ".0")) == Some(n as real)
    ensures TruncateToInt(ToNumeric(Str(ShowInt(n) + ".0")).value) == n
  {
    ParseDecimalOfPointZero(n);
  }
}
