/** Exact decimal model of the two .NET Framework number conversions the schedule
    parser relies on: `Double.TryParse` with `NumberStyles.AllowDecimalPoint` and
    `.` as separator, and `Convert.ToInt32(double)`. */
module Numbers {
  import opened Results
  import Text

  function Pow10(n: nat): (r: nat)
    ensures r >= 1
  {
    if n == 0 then 1 else 10 * Pow10(n - 1)
  }

  /** Number parsing accepts ASCII digits only. */
  predicate IsDigit(c: char)
  {
    '0' <= c <= '9'
  }

  predicate AllDigits(s: string)
  {
    forall i :: 0 <= i < |s| ==> IsDigit(s[i])
  }

  function DigitValue(c: char): (d: nat)
    requires IsDigit(c)
    ensures d < 10
  {
    (c as int) - ('0' as int)
  }

  /** The value of a string of decimal digits, most significant first. */
  function DigitsValue(s: string): (n: nat)
    requires AllDigits(s)
    ensures n < Pow10(|s|)
  {
    if |s| == 0 then 0
    else DigitsValue(s[..|s| - 1]) * 10 + DigitValue(s[|s| - 1])
  }

  /** The shortest decimal spelling of `n`. */
  function NatToDigits(n: nat): (s: string)
    ensures AllDigits(s) && DigitsValue(s) == n
    ensures 1 <= |s| && (n < 10 ==> |s| == 1) && (n < 100 ==> |s| <= 2)
  {
    var last := ['0' + (n % 10) as char];
    if n < 10 then last
    else
      var s := NatToDigits(n / 10) + last;
      assert s[..|s| - 1] == NatToDigits(n / 10);
      s
  }

  /** A non-negative decimal `whole + frac / 10^scale`. */
  datatype Decimal = Decimal(whole: nat, frac: nat, scale: nat)

  predicate WellFormed(d: Decimal)
  {
    d.frac < Pow10(d.scale)
  }

  /** The value times `10^scale`, an integer. */
  function Numerator(d: Decimal): nat
  {
    d.whole * Pow10(d.scale) + d.frac
  }

  /** The values `Double.TryParse` can deliver here: finite ones carry their
      exact decimal value. */
  datatype Double = Finite(value: Decimal) | NaN | PositiveInfinity | NegativeInfinity

  predicate HasDigit(s: string)
  {
    exists i :: 0 <= i < |s| && IsDigit(s[i])
  }

  /** What `AllowDecimalPoint` lets through: digits with at most one `.`, at
      least one digit, and nothing else: no sign, white space, exponent or
      group separator. */
  predicate IsDecimalText(s: string)
  {
    var parts := Text.Split(s, '.');
    && |parts| <= 2
    && (forall i :: 0 <= i < |parts| ==> AllDigits(parts[i]))
    && HasDigit(s)
  }

  /** The exact value of decimal text: the digits before the point, and those
      after it as a fraction with as many places as were written. */
  function DecimalOf(s: string): (d: Decimal)
    requires IsDecimalText(s)
    ensures WellFormed(d)
  {
    var parts := Text.Split(s, '.');
    if |parts| == 1 then Decimal(DigitsValue(parts[0]), 0, 0)
    else Decimal(DigitsValue(parts[0]), DigitsValue(parts[1]), |parts[1]|)
  }

  /** `Double.TryParse(s, NumberStyles.AllowDecimalPoint, info, out v)`, with
      `info` a fresh `NumberFormatInfo` whose decimal separator is `.`. When
      number parsing fails, the .NET Framework compares `s.Trim()` with the
      format's symbols for infinity and not-a-number before giving up. */
  function TryParseDouble(s: string): (r: Option<Double>)
    ensures (r.Some? && r.value.Finite?) <==> IsDecimalText(s)
    ensures r.Some? && r.value.Finite? ==> r.value.value == DecimalOf(s)
    ensures r.Some? && !r.value.Finite? ==> Text.Trim(s) in {"NaN", "Infinity", "-Infinity"}
    ensures r.None? <==> !IsDecimalText(s) && Text.Trim(s) !in {"NaN", "Infinity", "-Infinity"}
  {
    if IsDecimalText(s) then Some(Finite(DecimalOf(s)))
    else
      var t := Text.Trim(s);
      if t == "Infinity" then Some(PositiveInfinity)
      else if t == "-Infinity" then Some(NegativeInfinity)
      else if t == "NaN" then Some(NaN)
      else None
  }

  lemma DigitsLackSeparator(s: string, c: char)
    requires AllDigits(s) && !IsDigit(c)
    ensures c !in s
  {
  }

  /** Digit strings joined by `sep` hold only digits and `sep`. */
  lemma {:induction false} JoinDigits(parts: seq<string>, sep: char)
    requires |parts| >= 1
    ensures (forall k :: 0 <= k < |parts| ==> AllDigits(parts[k])) ==>
      forall i :: 0 <= i < |Text.Join(parts, sep)| ==> IsDigit(Text.Join(parts, sep)[i]) || Text.Join(parts, sep)[i] == sep
    decreases |parts|
  {
    if |parts| > 1 {
      JoinDigits(parts[1..], sep);
      if forall k :: 0 <= k < |parts| ==> AllDigits(parts[k]) {
        assert forall k :: 0 <= k < |parts[1..]| ==> AllDigits(parts[1..][k]);
        assert AllDigits(parts[0]);
      }
    }
  }

  /** Digits alone are read as a whole number. */
  lemma WholeText(w: string)
    requires AllDigits(w) && w != ""
    ensures TryParseDouble(w) == Some(Finite(Decimal(DigitsValue(w), 0, 0)))
  {
    DigitsLackSeparator(w, '.');
    Text.SplitWithoutSeparator(w, '.');
    assert IsDigit(w[0]);
    assert IsDecimalText(w);
    assert DecimalOf(w) == Decimal(DigitsValue(w), 0, 0);
  }

  /** Digits around one point split at the point. */
  lemma PointSplit(w: string, f: string)
    requires AllDigits(w) && AllDigits(f)
    ensures Text.Split(w + "." + f, '.') == [w, f]
  {
    var parts := [w, f];
    DigitsLackSeparator(w, '.');
    DigitsLackSeparator(f, '.');
    assert parts[1..] == [f];
    assert Text.Join(parts, '.') == w + "." + f;
    Text.SplitJoin(parts, '.');
  }

  /** Digits, a point and digits, with a digit on at least one side, are
      read as the whole part and a fraction with as many places as follow
      the point. */
  lemma PointText(w: string, f: string)
    requires AllDigits(w) && AllDigits(f) && w + f != ""
    ensures TryParseDouble(w + "." + f) == Some(Finite(Decimal(DigitsValue(w), DigitsValue(f), |f|)))
  {
    var s := w + "." + f;
    PointSplit(w, f);
    var i := if w != "" then 0 else 1;
    assert IsDigit(s[i]);
    assert IsDecimalText(s);
  }

  /** Decimal text has one of the two shapes `WholeText` and `PointText`
      read. */
  lemma DecimalTextForm(s: string)
    requires IsDecimalText(s)
    ensures || (s != "" && AllDigits(s))
            || (exists k :: 0 <= k < |s| && s[k] == '.' && |s| >= 2 && AllDigits(s[..k]) && AllDigits(s[k + 1..]))
  {
    var parts := Text.Split(s, '.');
    if |parts| == 2 {
      var k := |parts[0]|;
      assert Text.Join(parts[1..], '.') == parts[1];
      assert s == Text.Join(parts, '.') == parts[0] + ['.'] + parts[1];
      assert s[..k] == parts[0] && s[k + 1..] == parts[1] && s[k] == '.';
    }
  }

  /** Decimal text has exactly the two shapes `WholeText` and `PointText`
      read: digits, or digits around a single point with at least one
      digit. */
  lemma DecimalTextShape(s: string)
    ensures IsDecimalText(s) <==>
      || (s != "" && AllDigits(s))
      || (exists k :: 0 <= k < |s| && s[k] == '.' && |s| >= 2 && AllDigits(s[..k]) && AllDigits(s[k + 1..]))
  {
    if s != "" && AllDigits(s) {
      WholeText(s);
    }
    if exists k :: 0 <= k < |s| && s[k] == '.' && |s| >= 2 && AllDigits(s[..k]) && AllDigits(s[k + 1..]) {
      var k :| 0 <= k < |s| && s[k] == '.' && |s| >= 2 && AllDigits(s[..k]) && AllDigits(s[k + 1..]);
      assert s == s[..k] + "." + s[k + 1..];
      PointText(s[..k], s[k + 1..]);
    }
    if IsDecimalText(s) {
      DecimalTextForm(s);
    }
  }

  /** A character that is neither a digit nor the point rules out a
      number. */
  lemma NonDigitRefused(s: string, i: nat)
    requires i < |s| && !IsDigit(s[i]) && s[i] != '.'
    ensures !IsDecimalText(s)
  {
    JoinDigits(Text.Split(s, '.'), '.');
  }

  /** Text with no white space, not one of the format's symbols, and holding
      a character that is neither a digit nor the point, is refused. */
  lemma WordRefused(s: string, i: nat)
    requires i < |s| && !IsDigit(s[i]) && s[i] != '.'
    requires forall k :: 0 <= k < |s| ==> !Text.IsWhiteSpace(s[k])
    requires s !in {"NaN", "Infinity", "-Infinity"}
    ensures TryParseDouble(s) == None
  {
    NonDigitRefused(s, i);
    Text.TrimSolid(s);
  }

  /** Once trimmed, the format's symbols for not-a-number and the two
      infinities are read as those values, white space around them
      notwithstanding. */
  lemma SymbolText(s: string)
    ensures Text.Trim(s) == "NaN" ==> TryParseDouble(s) == Some(NaN)
    ensures Text.Trim(s) == "Infinity" ==> TryParseDouble(s) == Some(PositiveInfinity)
    ensures Text.Trim(s) == "-Infinity" ==> TryParseDouble(s) == Some(NegativeInfinity)
  {
    var u := Text.TrimStart(s);
    var t := Text.TrimEnd(u);
    if |t| > 0 && !IsDigit(t[0]) && t[0] != '.' {
      assert s[|s| - |u|] == t[0];
      NonDigitRefused(s, |s| - |u|);
    }
  }

  /** A whole number written in digits parses to itself and converts
      exactly. */
  lemma WholeParses(n: nat)
    requires n <= Int32Max
    ensures TryParseDouble(NatToDigits(n)) == Some(Finite(Decimal(n, 0, 0)))
    ensures ToInt32(Finite(Decimal(n, 0, 0))) == Some(n)
  {
    WholeText(NatToDigits(n));
  }

  function Dist(a: int, b: int): nat
  {
    if a >= b then a - b else b - a
  }

  /** `n` is a nearest integer to `d`, and the even one when `d` lies exactly
      half-way between two integers. */
  predicate IsNearestEven(d: Decimal, n: int)
  {
    var dist := Dist(Numerator(d), n * Pow10(d.scale));
    2 * dist <= Pow10(d.scale) && (2 * dist == Pow10(d.scale) ==> n % 2 == 0)
  }

  /** The rounding step of `Convert.ToInt32` for a non-negative value: truncate,
      then step up when the dropped part exceeds one half, or equals one half
      and the truncated value is odd. */
  function RoundHalfEven(d: Decimal): (n: nat)
    requires WellFormed(d)
    ensures IsNearestEven(d, n)
  {
    var p := Pow10(d.scale);
    if 2 * d.frac > p || (2 * d.frac == p && d.whole % 2 == 1) then
      assert (d.whole + 1) * p == d.whole * p + p;
      d.whole + 1
    else d.whole
  }

  /** Rounding to nearest with ties to even has exactly one answer, so
      `RoundHalfEven` is fully described by `IsNearestEven`. */
  lemma NearestEvenUnique(d: Decimal, a: int, b: int)
    requires IsNearestEven(d, a) && IsNearestEven(d, b)
    ensures a == b
  {
    if a != b {
      var lo, hi := if a < b then a else b, if a < b then b else a;
      var p := Pow10(d.scale);
      var x := Numerator(d);
      var lp, hp := lo * p, hi * p;
      // Two candidates at least one unit apart cannot both be within half a unit,
      // unless both are exactly half a unit away and one unit apart.
      MulMonotone(lo + 1, hi, p);
      MulStep(lo, p);
      assert Dist(x, lp) + Dist(x, hp) >= hp - lp >= p;
      MulCancel(hi, lo + 1, p);
      assert false;
    }
  }

  lemma MulStep(a: int, p: int)
    ensures (a + 1) * p == a * p + p
  {
  }

  lemma MulMonotone(a: int, b: int, p: int)
    requires a <= b && p >= 0
    ensures a * p <= b * p
  {
    assert b * p - a * p == (b - a) * p;
  }

  lemma MulCancel(a: int, b: int, p: int)
    requires p >= 1 && a * p <= b * p
    ensures a <= b
  {
    if a > b {
      MulMonotone(b + 1, a, p);
      MulStep(b, p);
    }
  }

  const Int32Max := 2147483647

  /** `Convert.ToInt32(v)` for a value `Double.TryParse` delivered: round to
      nearest, ties to even. Not-a-number, the infinities and values at or
      above `Int32Max + 0.5` throw `OverflowException`, shown as `None`. */
  function ToInt32(v: Double): (r: Option<int>)
    requires v.Finite? ==> WellFormed(v.value)
    ensures r.Some? <==> v.Finite? && 2 * Numerator(v.value) < (2 * Int32Max + 1) * Pow10(v.value.scale)
    ensures r.Some? ==> 0 <= r.value <= Int32Max && IsNearestEven(v.value, r.value)
  {
    match v
    case Finite(d) =>
      BelowOverflowBound(d);
      if d.whole > Int32Max || (d.whole == Int32Max && 2 * d.frac >= Pow10(d.scale)) then None
      else Some(RoundHalfEven(d))
    case _ => None
  }

  /** The overflow test on the integer and fractional parts is the comparison
      of the whole value with `Int32Max + 0.5`. */
  lemma BelowOverflowBound(d: Decimal)
    requires WellFormed(d)
    ensures (d.whole < Int32Max || (d.whole == Int32Max && 2 * d.frac < Pow10(d.scale)))
        <==> 2 * Numerator(d) < (2 * Int32Max + 1) * Pow10(d.scale)
  {
    var p := Pow10(d.scale);
    if d.whole > Int32Max {
      MulMonotone(Int32Max + 1, d.whole, p);
    } else if d.whole < Int32Max {
      MulMonotone(d.whole, Int32Max - 1, p);
    }
  }
}
