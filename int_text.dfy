/**
 * Invariant-culture text of 32-bit integers: `int.ToString(CultureInfo.InvariantCulture)`
 * and `int.TryParse` under the two number styles the codec uses.
 *
 * `NumberStyles.Integer` allows leading and trailing white space and a leading
 * sign. `NumberStyles.Number` also allows a trailing sign (when there was no
 * leading one), a decimal point and ',' group separators after the first digit;
 * the digits after the decimal point must all be zero for the text to denote an
 * `int`. White space is ' ' and '\t' through '\r'; trailing NUL characters are
 * ignored. The signs are '+' and '-'.
 */
module IntText {
  import opened Common

  const MinInt32: int := -0x8000_0000
  const MaxInt32: int := 0x7FFF_FFFF

  /** The values of a C# `int`. */
  type Int32 = x: int | -0x8000_0000 <= x <= 0x7FFF_FFFF

  predicate IsDigit(c: char) { '0' <= c <= '9' }

  function DigitValue(c: char): int { c as int - '0' as int }

  predicate IsWhite(c: char) { c == ' ' || ('\t' <= c <= '\r') }

  predicate AllDigits(s: string) { forall i | 0 <= i < |s| :: IsDigit(s[i]) }

  /** The decimal digits of `n`, most significant first, without leading zeros. */
  function Digits(n: nat): (s: string)
    ensures |s| >= 1 && AllDigits(s)
    ensures s[0] == '0' ==> n == 0
  {
    if n < 10 then [('0' as int + n) as char]
    else Digits(n / 10) + [('0' as int + n % 10) as char]
  }

  /** `x.ToString(CultureInfo.InvariantCulture)`: a '-' for negative values, then the digits. */
  function Format(x: int): (s: string)
    ensures |s| >= 1 && !IsWhite(s[0])
    ensures forall i | 0 <= i < |s| :: !IsWhite(s[i])
    ensures (s[0] == '-') == (x < 0)
    ensures forall i | 0 <= i < |s| :: s[i] == '-' || IsDigit(s[i])
  {
    if x < 0 then "-" + Digits(-x) else Digits(x)
  }

  /** The number a string of digits denotes (most significant first). */
  function DigitsValue(s: string): int
  {
    if s == [] then 0 else DigitsValue(s[..|s| - 1]) * 10 + DigitValue(s[|s| - 1])
  }

  lemma {:induction false} DigitsValueOfDigits(n: nat)
    ensures DigitsValue(Digits(n)) == n
  {
    if n >= 10 {
      DigitsValueOfDigits(n / 10);
      var s := Digits(n);
      assert s[..|s| - 1] == Digits(n / 10);
    }
  }

  datatype NumberStyles = Integer | Number

  /** What the scan of the number body has seen so far. */
  datatype ScanState = ScanState(magnitude: int, sawDigit: bool, sawDecimal: bool, fractionNonZero: bool)

  const StartState := ScanState(0, false, false, false)

  function SkipWhite(s: string, i: nat): (j: nat)
    requires i <= |s|
    ensures i <= j <= |s|
    decreases |s| - i
  {
    if i < |s| && IsWhite(s[i]) then SkipWhite(s, i + 1) else i
  }

  /** Scans the digits (and, for `Number`, the decimal point and group separators) from `i`; returns the state and where it stopped. */
  function ScanBody(s: string, i: nat, style: NumberStyles, st: ScanState): (r: (ScanState, nat))
    requires i <= |s|
    ensures i <= r.1 <= |s|
    decreases |s| - i
  {
    if i == |s| then (st, i)
    else if IsDigit(s[i]) then
      var next :=
        if st.sawDecimal then st.(sawDigit := true, fractionNonZero := st.fractionNonZero || s[i] != '0')
        else st.(sawDigit := true, magnitude := st.magnitude * 10 + DigitValue(s[i]));
      ScanBody(s, i + 1, style, next)
    else if style == Number && s[i] == '.' && !st.sawDecimal then
      ScanBody(s, i + 1, style, st.(sawDecimal := true))
    else if style == Number && s[i] == ',' && st.sawDigit && !st.sawDecimal then
      ScanBody(s, i + 1, style, st)
    else (st, i)
  }

  /** Scans trailing white space and, for `Number` without a leading sign, one trailing sign; returns where it stopped and the sign. */
  function ScanTrailing(s: string, i: nat, style: NumberStyles, signSeen: bool, negative: bool): (r: (nat, bool))
    requires i <= |s|
    ensures i <= r.0 <= |s|
    decreases |s| - i
  {
    if i == |s| then (i, negative)
    else if IsWhite(s[i]) then ScanTrailing(s, i + 1, style, signSeen, negative)
    else if style == Number && !signSeen && (s[i] == '+' || s[i] == '-') then
      ScanTrailing(s, i + 1, style, true, s[i] == '-')
    else (i, negative)
  }

  /**
   * `int.TryParse(s, style, CultureInfo.InvariantCulture, out v)`: `Some(v)` on
   * success, `None` when the text is not a number of that style, has non-zero
   * fractional digits or lies outside the `int` range.
   */
  function TryParse(s: string, style: NumberStyles): (r: Option<Int32>)
    ensures r.Some? ==> exists k | 0 <= k < |s| :: IsDigit(s[k])
  {
    var i0 := SkipWhite(s, 0);
    var hasSign := i0 < |s| && (s[i0] == '+' || s[i0] == '-');
    var i1 := if hasSign then i0 + 1 else i0;
    var (st, i2) := ScanBody(s, i1, style, StartState);
    var (i3, negative) := ScanTrailing(s, i2, style, hasSign, hasSign && s[i0] == '-');
    var value := if negative then -st.magnitude else st.magnitude;
    if !st.sawDigit || st.fractionNonZero || (exists k | i3 <= k < |s| :: s[k] != '\0') then None
    else if MinInt32 <= value <= MaxInt32 then
      SawDigitMeansDigit(s, i1, style, StartState);
      Some(value)
    else None
  }

  lemma {:induction false} SawDigitMeansDigit(s: string, i: nat, style: NumberStyles, st: ScanState)
    requires i <= |s|
    requires !st.sawDigit
    ensures ScanBody(s, i, style, st).0.sawDigit ==> exists k | i <= k < |s| :: IsDigit(s[k])
    decreases |s| - i
  {
    if i < |s| && !IsDigit(s[i]) {
      if style == Number && s[i] == '.' && !st.sawDecimal {
        SawDigitMeansDigit(s, i + 1, style, st.(sawDecimal := true));
      } else if style == Number && s[i] == ',' && st.sawDigit && !st.sawDecimal {
      } else {
      }
    }
  }

  /** Scanning a run of digits accumulates their value and stops at the end. */
  lemma {:induction false} ScanDigitRun(s: string, j: nat, i: nat, style: NumberStyles)
    requires j <= i <= |s|
    requires AllDigits(s[j..])
    ensures ScanBody(s, i, style, ScanState(DigitsValue(s[j..i]), i > j, false, false))
         == (ScanState(DigitsValue(s[j..]), |s| > j, false, false), |s|)
    decreases |s| - i
  {
    if i == |s| {
      assert s[j..i] == s[j..];
    } else {
      assert IsDigit(s[j..][i - j]);
      assert s[j..i + 1][..i - j] == s[j..i];
      ScanDigitRun(s, j, i + 1, style);
    }
  }

  /** The parser reads back what the printer writes, under either style. */
  lemma ParseFormat(x: Int32, style: NumberStyles)
    ensures TryParse(Format(x), style) == Some(x)
  {
    var s := Format(x);
    var n: nat := if x < 0 then -(x as int) else x as int;
    var j := if x < 0 then 1 else 0;
    var d := Digits(n);
    assert s[j..] == d;
    assert SkipWhite(s, 0) == 0;
    assert s[j..j] == [];
    ScanDigitRun(s, j, j, style);
    DigitsValueOfDigits(n);
  }

  /** `Number` accepts ',' group separators after the first digit; `Integer` stops at them. */
  lemma GroupSeparatorExample()
    ensures TryParse("1,234", Number) == Some(1234)
    ensures TryParse("1,234", Integer) == None
  {
  }

  /** `Number` accepts one trailing sign, here followed by white space. */
  lemma TrailingSignExample()
    ensures TryParse(" 5- ", Number) == Some(-5)
  {
  }

  /** A decimal point is accepted only when every fractional digit is zero. */
  lemma FractionExample()
    ensures TryParse("5.0", Number) == Some(5)
    ensures TryParse("5.5", Number) == None
  {
  }
}
