/** Character-level parsing used by the loaders: decimal digit strings,
    Python's `int()` on a plain signed integer, the decimal strings pandas'
    `to_numeric` accepts, and `str.split` on a single separator character. */
module Text {
  import opened Wrappers

  predicate IsDigit(c: char) {
    '0' <= c <= '9'
  }

  predicate AllDigits(s: string) {
    forall i :: 0 <= i < |s| ==> IsDigit(s[i])
  }

  function DigitValue(c: char): nat
    requires IsDigit(c)
  {
    (c as int) - ('0' as int)
  }

  function DigitChar(d: nat): (c: char)
    requires d < 10
    ensures IsDigit(c) && DigitValue(c) == d
  {
    (('0' as int) + d) as char
  }

  /** Value of a digit string read most-significant digit first. */
  function DigitsValue(s: string): nat
    requires AllDigits(s)
    decreases |s|
  {
    if |s| == 0 then 0 else DigitsValue(s[..|s| - 1]) * 10 + DigitValue(s[|s| - 1])
  }

  /** Decimal rendering of a natural number, without leading zeros. */
  function ShowNat(n: nat): (s: string)
    ensures |s| > 0 && AllDigits(s)
    decreases n
  {
    if n < 10 then [DigitChar(n)] else ShowNat(n / 10) + [DigitChar(n % 10)]
  }

  function ShowInt(n: int): string {
    if n < 0 then "-" + ShowNat(-n) else ShowNat(n)
  }

  /** Reading back a rendered number gives the number. */
  lemma {:induction false} DigitsValueOfShowNat(n: nat)
    ensures DigitsValue(ShowNat(n)) == n
    decreases n
  {
    var s := ShowNat(n);
    if n >= 10 {
      DigitsValueOfShowNat(n / 10);
      assert s[..|s| - 1] == ShowNat(n / 10);
    }
  }

  predicate IsSign(c: char) {
    c == '+' || c == '-'
  }

  /** Python's `int()` on a string: an optional sign followed by ASCII digits.
      Anything else raises `ValueError`, modelled as `None`. */
  function ParseInt(s: string): (r: Option<int>)
    ensures r.Some? <==> |s| > 0 && (AllDigits(s) || (|s| > 1 && IsSign(s[0]) && AllDigits(s[1..])))
    ensures r.Some? && AllDigits(s) ==> r.value == DigitsValue(s)
    ensures r.Some? && s[0] == '+' ==> r.value == DigitsValue(s[1..])
    ensures r.Some? && s[0] == '-' ==> r.value == -(DigitsValue(s[1..]) as int)
  {
    if |s| > 0 && IsSign(s[0]) then
      if |s| > 1 && AllDigits(s[1..]) then
        var magnitude: int := DigitsValue(s[1..]);
        Some(if s[0] == '-' then -magnitude else magnitude)
      else None
    else if |s| > 0 && AllDigits(s) then Some(DigitsValue(s))
    else None
  }

  /** `int()` reads back every rendered integer. */
  lemma ParseIntOfShowInt(n: int)
    ensures ParseInt(ShowInt(n)) == Some(n)
  {
    if n < 0 {
      var s := ShowInt(n);
      assert s[1..] == ShowNat(-n);
      DigitsValueOfShowNat(-n);
    } else {
      DigitsValueOfShowNat(n);
    }
  }

  /** A string made only of digits is read by `int()` as that digit string's value. */
  lemma ParseIntOfDigits(s: string)
    requires |s| > 0 && AllDigits(s)
    ensures ParseInt(s) == Some(DigitsValue(s) as int)
  {
    assert !IsSign(s[0]) by { assert IsDigit(s[0]); }
  }

  function Pow10(k: nat): (p: nat)
    ensures p >= 1
  {
    if k == 0 then 1 else 10 * Pow10(k - 1)
  }

  /** Index of the first occurrence of `c` in `s`, if any. */
  function IndexOf(s: string, c: char): (r: Option<nat>)
    ensures r.Some? ==> r.value < |s| && s[r.value] == c && c !in s[..r.value]
    ensures r.None? <==> c !in s
  {
    if |s| == 0 then None
    else if s[0] == c then Some(0)
    else match IndexOf(s[1..], c)
      case None => None
      case Some(k) => assert s[..k + 1] == [s[0]] + s[1..][..k]; Some(k + 1)
  }

  /** Digits and at most one '.', with at least one digit. */
  predicate IsUnsignedDecimal(s: string) {
    && (forall i :: 0 <= i < |s| ==> IsDigit(s[i]) || s[i] == '.')
    && (forall i, j :: 0 <= i < j < |s| && s[i] == '.' ==> s[j] != '.')
    && (exists i :: 0 <= i < |s| && IsDigit(s[i]))
  }

  /** An optional sign followed by an unsigned decimal. */
  predicate IsDecimal(s: string) {
    IsUnsignedDecimal(s) || (|s| > 0 && IsSign(s[0]) && IsUnsignedDecimal(s[1..]))
  }

  /** An unsigned decimal `D[.F]` with at least one digit in `D` or `F`. */
  function ParseUnsignedDecimal(s: string): (r: Option<real>)
    ensures r.Some? <==> IsUnsignedDecimal(s)
    ensures r.Some? && AllDigits(s) ==> r.value == DigitsValue(s) as real
  {
    UnsignedDecimalShape(s);
    match IndexOf(s, '.')
    case None =>
      if |s| > 0 && AllDigits(s) then Some(DigitsValue(s) as real) else None
    case Some(k) =>
      var whole, frac := s[..k], s[k + 1..];
      if AllDigits(whole) && AllDigits(frac) && |whole| + |frac| > 0 then
        Some(PointValue(whole, frac))
      else None
  }

  /** Value of the digits `whole` '.' `frac`. */
  function PointValue(whole: string, frac: string): real
    requires AllDigits(whole) && AllDigits(frac)
  {
    DigitsValue(whole) as real + DigitsValue(frac) as real / Pow10(|frac|) as real
  }

  /** How `ParseUnsignedDecimal` splits at the first '.': the pieces on
      either side are digit strings exactly when the whole is a decimal. */
  lemma UnsignedDecimalShape(s: string)
    ensures IndexOf(s, '.').None? ==> (IsUnsignedDecimal(s) <==> |s| > 0 && AllDigits(s))
    ensures IndexOf(s, '.').Some? ==>
      var k := IndexOf(s, '.').value;
      IsUnsignedDecimal(s) <==> AllDigits(s[..k]) && AllDigits(s[k + 1..]) && |s[..k]| + |s[k + 1..]| > 0
  {
    match IndexOf(s, '.')
    case None =>
      if |s| > 0 && AllDigits(s) {
        assert IsDigit(s[0]);
      }
    case Some(k) =>
      var whole, frac := s[..k], s[k + 1..];
      assert forall i :: 0 <= i < k ==> s[i] == whole[i];
      assert forall i :: k < i < |s| ==> s[i] == frac[i - k - 1];
      if AllDigits(whole) && AllDigits(frac) && |whole| + |frac| > 0 {
        assert forall i, j :: 0 <= i < j < |s| && s[i] == '.' ==> i == k && s[j] != '.';
        if |whole| > 0 {
          assert IsDigit(s[0]);
        } else {
          assert IsDigit(s[k + 1]);
        }
      }
      if IsUnsignedDecimal(s) {
        forall i | 0 <= i < |frac| ensures IsDigit(frac[i]) {
          assert s[k + 1 + i] == frac[i];
        }
        forall i | 0 <= i < |whole| ensures IsDigit(whole[i]) {
          assert s[i] == whole[i];
          assert s[i] != '.' by { assert '.' !in s[..k]; assert s[i] == s[..k][i]; }
        }
        var d :| 0 <= d < |s| && IsDigit(s[d]);
        assert d != k;
      }
  }

  /** Reading a concatenation of digit strings: the first part is shifted
      by the length of the second. */
  lemma {:induction false} DigitsValueConcat(a: string, b: string)
    requires AllDigits(a) && AllDigits(b)
    ensures AllDigits(a + b)
    ensures DigitsValue(a + b) == DigitsValue(a) * Pow10(|b|) + DigitsValue(b)
    decreases |b|
  {
    if |b| == 0 {
      assert a + b == a;
    } else {
      var b' := b[..|b| - 1];
      var last := b[|b| - 1];
      DigitsValueConcat(a, b');
      assert (a + b)[..|a + b| - 1] == a + b';
      assert (a + b)[|a + b| - 1] == last;
      assert DigitsValue(a + b) == DigitsValue(a + b') * 10 + DigitValue(last);
      assert DigitsValue(b) == DigitsValue(b') * 10 + DigitValue(last);
      ShiftByOneDigit(DigitsValue(a), Pow10(|b'|), DigitsValue(b'), DigitValue(last));
    }
  }

  lemma ShiftByOneDigit(x: int, p: int, y: int, d: int)
    ensures (x * p + y) * 10 + d == x * (10 * p) + (y * 10 + d)
  {
  }

  /** The first '.' of `s` is the one at `k` when `s` has at most one. */
  lemma OnlyPoint(s: string, k: nat)
    requires IsUnsignedDecimal(s) && k < |s| && s[k] == '.'
    ensures IndexOf(s, '.') == Some(k)
  {
    assert '.' in s;
  }

  /** The value of a decimal with a point: the digits read with the point
      removed, divided by ten to the number of digits after it. */
  lemma UnsignedDecimalValue(s: string, k: nat)
    requires IsUnsignedDecimal(s) && k < |s| && s[k] == '.'
    ensures AllDigits(s[..k] + s[k + 1..])
    ensures ParseUnsignedDecimal(s) == Some(DigitsValue(s[..k] + s[k + 1..]) as real / Pow10(|s| - k - 1) as real)
  {
    PointSplit(s, k);
    PointValueScaled(s[..k], s[k + 1..]);
    assert |s[k + 1..]| == |s| - k - 1;
  }

  /** `PointValue` is the joined digits over a power of ten. */
  lemma PointValueScaled(whole: string, frac: string)
    requires AllDigits(whole) && AllDigits(frac)
    ensures AllDigits(whole + frac)
    ensures PointValue(whole, frac) == DigitsValue(whole + frac) as real / Pow10(|frac|) as real
  {
    DigitsValueConcat(whole, frac);
    DecimalScale(DigitsValue(whole), Pow10(|frac|), DigitsValue(frac),
                 DigitsValue(whole + frac), PointValue(whole, frac));
  }

  /** `ParseUnsignedDecimal` splits a decimal at its one point. */
  lemma PointSplit(s: string, k: nat)
    requires IsUnsignedDecimal(s) && k < |s| && s[k] == '.'
    ensures AllDigits(s[..k]) && AllDigits(s[k + 1..])
    ensures ParseUnsignedDecimal(s) == Some(PointValue(s[..k], s[k + 1..]))
  {
    UnsignedDecimalShape(s);
    OnlyPoint(s, k);
  }

  /** Arithmetic behind `UnsignedDecimalValue`: `w + f / p` is the integer
      `w * p + f` over `p`. */
  lemma DecimalScale(w: int, p: int, f: int, d: int, v: real)
    requires p > 0 && d == w * p + f
    requires v == w as real + f as real / p as real
    ensures v == d as real / p as real
  {
    assert (w * p) as real == w as real * p as real;
  }

  /** The strings pandas' `to_numeric` turns into a number: an optional sign
      and a plain decimal. Every other string coerces to NaN (`None`). */
  function ParseDecimal(s: string): (r: Option<real>)
    ensures r.Some? <==> IsDecimal(s)
    ensures r.Some? && |s| > 0 && !IsSign(s[0]) ==> r == ParseUnsignedDecimal(s)
    ensures r.Some? && |s| > 0 && s[0] == '+' ==> r == ParseUnsignedDecimal(s[1..])
    ensures r.Some? && |s| > 0 && s[0] == '-' ==> r.value == -ParseUnsignedDecimal(s[1..]).value
  {
    if |s| > 0 && IsSign(s[0]) then
      match ParseUnsignedDecimal(s[1..])
      case None => None
      case Some(v) => Some(if s[0] == '-' then -v else v)
    else
      ParseUnsignedDecimal(s)
  }

  /** `to_numeric` reads back every rendered integer as that integer. */
  lemma ParseDecimalOfShowInt(n: int)
    ensures ParseDecimal(ShowInt(n)) == Some(n as real)
  {
    var m: nat := if n < 0 then -n else n;
    var digits := ShowNat(m);
    DigitsValueOfShowNat(m);
    assert IndexOf(digits, '.') == None;
    if n < 0 {
      assert ShowInt(n)[1..] == digits;
    } else {
      assert !IsSign(digits[0]) by { assert IsDigit(digits[0]); }
    }
  }

  /** `to_numeric` reads an integer written with a trailing ".0", as a
      float column is saved, as that integer. */
  lemma ParseDecimalOfPointZero(n: int)
    ensures ParseDecimal(ShowInt(n) + ".0") == Some(n as real)
  {
    if n < 0 {
      NegativeIntPointZero(n);
    } else {
      PointZeroValue(n);
      UnsignedIsDecimal(ShowNat(n) + ".0");
    }
  }

  lemma NegativeIntPointZero(n: int)
    requires n < 0
    ensures ParseDecimal(ShowInt(n) + ".0") == Some(n as real)
  {
    var m: nat := -n;
    var s := ShowInt(n) + ".0";
    assert ShowInt(n) == "-" + ShowNat(m);
    assert s == "-" + (ShowNat(m) + ".0");
    NegativePointZero(m);
    assert -(m as real) == n as real;
  }

  lemma NegativePointZero(m: nat)
    ensures ParseDecimal("-" + (ShowNat(m) + ".0")) == Some(-(m as real))
  {
    var u := ShowNat(m) + ".0";
    PointZeroValue(m);
    NegatedDecimal(u, m as real);
  }

  /** A decimal that starts with a digit reads the same signed or not. */
  lemma UnsignedIsDecimal(u: string)
    requires IsUnsignedDecimal(u) && |u| > 0 && IsDigit(u[0])
    ensures ParseDecimal(u) == ParseUnsignedDecimal(u)
  {
  }

  /** A '-' in front of an unsigned decimal negates it. */
  lemma NegatedDecimal(u: string, v: real)
    requires ParseUnsignedDecimal(u) == Some(v)
    ensures ParseDecimal("-" + u) == Some(-v)
  {
    assert ("-" + u)[1..] == u;
  }

  /** The unsigned half of `ParseDecimalOfPointZero`. */
  lemma PointZeroValue(m: nat)
    ensures IsUnsignedDecimal(ShowNat(m) + ".0") && IsDigit((ShowNat(m) + ".0")[0])
    ensures ParseUnsignedDecimal(ShowNat(m) + ".0") == Some(m as real)
  {
    var digits := ShowNat(m);
    var u := digits + ".0";
    var k := |digits|;
    PointZeroShape(digits);
    assert IsDigit(u[0]);
    UnsignedDecimalValue(u, k);
    assert u[..k] + u[k + 1..] == digits + "0";
    AppendZero(digits);
    DigitsValueOfShowNat(m);
    assert |u| - k - 1 == 1;
    DivideOutTen(m);
  }

  lemma PointZeroShape(digits: string)
    requires |digits| > 0 && AllDigits(digits)
    ensures IsUnsignedDecimal(digits + ".0")
  {
    var u := digits + ".0";
    assert forall i :: 0 <= i < |u| && i != |digits| ==> IsDigit(u[i]);
    assert IsDigit(u[0]);
  }

  lemma AppendZero(digits: string)
    requires AllDigits(digits)
    ensures AllDigits(digits + "0")
    ensures DigitsValue(digits + "0") == DigitsValue(digits) * 10
  {
    assert (digits + "0")[..|digits + "0"| - 1] == digits;
  }

  lemma DivideOutTen(m: int)
    ensures (m * 10) as real / Pow10(1) as real == m as real
  {
  }

  /** Python's `s.split(sep)` for a one-character separator: the maximal
      separator-free pieces between separators, always at least one. */
  function Split(s: string, sep: char): (parts: seq<string>)
    ensures |parts| >= 1
    ensures forall i :: 0 <= i < |parts| ==> sep !in parts[i]
    decreases |s|
  {
    if |s| == 0 then [""]
    else
      var rest := Split(s[1..], sep);
      if s[0] == sep then [""] + rest
      else [[s[0]] + rest[0]] + rest[1..]
  }

  /** Python's `sep.join(parts)`. */
  function Join(parts: seq<string>, sep: char): string
    requires |parts| >= 1
    decreases |parts|
  {
    if |parts| == 1 then parts[0] else parts[0] + [sep] + Join(parts[1..], sep)
  }

  /** Splitting loses nothing: joining the pieces with the separator rebuilds the string. */
  lemma {:induction false} JoinSplit(s: string, sep: char)
    ensures Join(Split(s, sep), sep) == s
    decreases |s|
  {
    if |s| > 0 {
      var rest := Split(s[1..], sep);
      JoinSplit(s[1..], sep);
      if s[0] != sep {
        var parts := [[s[0]] + rest[0]] + rest[1..];
        if |rest| == 1 {
          assert Join(parts, sep) == [s[0]] + rest[0];
        } else {
          assert parts[1..] == rest[1..];
          assert Join(rest, sep) == rest[0] + [sep] + Join(rest[1..], sep);
        }
      } else {
        assert ([""] + rest)[1..] == rest;
      }
    }
  }

  /** A string without the separator is one piece. */
  lemma {:induction false} SplitWithoutSeparator(s: string, sep: char)
    requires sep !in s
    ensures Split(s, sep) == [s]
    decreases |s|
  {
    if |s| > 0 {
      SplitWithoutSeparator(s[1..], sep);
      assert [s[0]] + s[1..] == s;
    }
  }

  /** The piece before the first separator comes out first. */
  lemma {:induction false} SplitFirstPiece(a: string, rest: string, sep: char)
    requires sep !in a
    ensures Split(a + [sep] + rest, sep) == [a] + Split(rest, sep)
    decreases |a|
  {
    var s := a + [sep] + rest;
    if |a| == 0 {
      assert s[1..] == rest;
    } else {
      assert s[1..] == a[1..] + [sep] + rest;
      SplitFirstPiece(a[1..], rest, sep);
      assert [a[0]] + a[1..] == a;
    }
  }

  /** Exactly one separator splits into the two sides. */
  lemma SplitAtSingleSeparator(a: string, b: string, sep: char)
    requires sep !in a && sep !in b
    ensures Split(a + [sep] + b, sep) == [a, b]
  {
    SplitFirstPiece(a, b, sep);
    SplitWithoutSeparator(b, sep);
  }
}
