/**
 * The few JavaScript string operations the executors rely on: `startsWith`, `endsWith`,
 * `parseInt` without a radix, and the decimal rendering of an integer in a template literal.
 * `NaN` is modelled as an absent number.
 */
module JsText {
  import opened Types

  predicate StartsWith(s: string, prefix: string) {
    |prefix| <= |s| && s[..|prefix|] == prefix
  }

  predicate EndsWith(s: string, suffix: string) {
    |suffix| <= |s| && s[|s| - |suffix|..] == suffix
  }

  /** A string that ends with `ms` also ends with `s`. */
  lemma EndsWithMsEndsWithS(s: string)
    requires EndsWith(s, "ms")
    ensures EndsWith(s, "s")
  {
    assert s[|s| - 1..] == s[|s| - 2..][1..];
  }

  /** The white space `parseInt` skips before the number (the space separators other than U+0020 and U+00A0 are not modelled). */
  predicate IsSpace(c: char) {
    c == ' ' || c == '\t' || c == '\n' || c == '\r' || c == '\U{000B}' || c == '\U{000C}'
    || c == '\U{00A0}' || c == '\U{FEFF}' || c == '\U{2028}' || c == '\U{2029}'
  }

  /** The string without its leading white space. */
  function TrimStart(s: string): (r: string)
    ensures |r| <= |s| && r == s[|s| - |r|..]
    ensures forall i | 0 <= i < |s| - |r| :: IsSpace(s[i])
    ensures r == [] || !IsSpace(r[0])
  {
    if s != [] && IsSpace(s[0]) then TrimStart(s[1..]) else s
  }

  /** The value of `c` as a digit of `radix` (10 or 16), if it is one. */
  function DigitValue(c: char, radix: nat): (r: Option<nat>)
    ensures r.Some? ==> r.value < radix
  {
    if '0' <= c <= '9' && (c as int) - ('0' as int) < radix then Some((c as int) - ('0' as int))
    else if radix == 16 && 'a' <= c <= 'f' then Some((c as int) - ('a' as int) + 10)
    else if radix == 16 && 'A' <= c <= 'F' then Some((c as int) - ('A' as int) + 10)
    else None
  }

  /** The length of the longest prefix of `s` made of digits of `radix`. */
  function DigitRun(s: string, radix: nat): (r: nat)
    ensures r <= |s|
    ensures forall i | 0 <= i < r :: DigitValue(s[i], radix).Some?
    ensures r == |s| || DigitValue(s[r], radix).None?
  {
    if s == [] || DigitValue(s[0], radix).None? then 0
    else
      var rest := DigitRun(s[1..], radix);
      assert forall i | 1 <= i < rest + 1 :: s[i] == s[1..][i - 1];
      rest + 1
  }

  /** The number a string of digits of `radix` denotes, most significant digit first. */
  function DigitsValue(s: string, radix: nat): nat
    requires forall i | 0 <= i < |s| :: DigitValue(s[i], radix).Some?
  {
    if s == [] then 0
    else DigitsValue(s[..|s| - 1], radix) * radix + DigitValue(s[|s| - 1], radix).value
  }

  /** The digits after the sign: hexadecimal after `0x` or `0X`, decimal otherwise; `NaN` without a digit. */
  function ParseMagnitude(s: string): (r: Option<nat>)
    ensures r.Some? ==> s != []
  {
    var hex := |s| >= 2 && s[0] == '0' && (s[1] == 'x' || s[1] == 'X');
    var radix := if hex then 16 else 10;
    var digits := if hex then s[2..] else s;
    var n := DigitRun(digits, radix);
    if n == 0 then None else Some(DigitsValue(digits[..n], radix))
  }

  /** `parseInt(s)`: leading white space, an optional sign, then the longest run of digits; `None` is `NaN`. */
  function ParseInt(s: string): (r: Option<int>)
    ensures r.None? <==> ParseMagnitude(Unsigned(TrimStart(s))).None?
    ensures r.Some? && TrimStart(s)[0] == '-' ==> r.value <= 0
    ensures r.Some? && TrimStart(s)[0] != '-' ==> r.value >= 0
  {
    var t := TrimStart(s);
    match ParseMagnitude(Unsigned(t))
    case None => None
    case Some(m) =>
      var w: int := m;
      Some(if t != [] && t[0] == '-' then -w else w)
  }

  /** The string with a leading `+` or `-` removed. */
  function Unsigned(t: string): (r: string)
    ensures r == t || (t != [] && (t[0] == '+' || t[0] == '-') && r == t[1..])
  {
    if t != [] && (t[0] == '+' || t[0] == '-') then t[1..] else t
  }

  function DecimalDigit(d: nat): (c: char)
    requires d < 10
    ensures DigitValue(c, 10) == Some(d)
  {
    (('0' as int) + d) as char
  }

  /** The decimal digits of `n`, without leading zeros. */
  function Decimal(n: nat): (r: string)
    ensures r != [] && '0' <= r[0] <= '9'
    ensures forall i | 0 <= i < |r| :: DigitValue(r[i], 10).Some?
    ensures |r| > 1 ==> r[0] != '0'
  {
    if n < 10 then [DecimalDigit(n)] else Decimal(n / 10) + [DecimalDigit(n % 10)]
  }

  /** `${n}` for an integer `n`, and `NaN` for the absent number. */
  function NumberText(n: Option<int>): (r: string)
    ensures r != []
  {
    match n
    case None => "NaN"
    case Some(v) => if v < 0 then "-" + Decimal(-v) else Decimal(v)
  }

  lemma {:induction false} DecimalValue(n: nat)
    ensures DigitsValue(Decimal(n), 10) == n
  {
    if n >= 10 {
      var r := Decimal(n);
      assert r[..|r| - 1] == Decimal(n / 10);
      DecimalValue(n / 10);
    }
  }

  /**
   * `parseInt` reads back the rendering of an integer followed by a suffix that does not start with
   * a digit, such as the `ms` or `s` of a duration.
   */
  lemma ParseIntReadsNumberText(v: int, suffix: string)
    requires suffix == [] || (DigitValue(suffix[0], 10).None? && suffix[0] != 'x' && suffix[0] != 'X')
    ensures ParseInt(NumberText(Some(v)) + suffix) == Some(v)
  {
    var m: nat := if v < 0 then -v else v;
    var s := NumberText(Some(v)) + suffix;
    NumberTextStart(v, suffix);
    MagnitudeOfDecimal(m, suffix);
  }

  /** The rendering starts with `-` or a digit, and without its sign it is the digits of the magnitude. */
  lemma NumberTextStart(v: int, suffix: string)
    ensures var s := NumberText(Some(v)) + suffix;
      && TrimStart(s) == s
      && (s[0] == '-' <==> v < 0)
      && Unsigned(s) == Decimal(if v < 0 then -v else v) + suffix
  {
    if v < 0 {
      NegativeStart(Decimal(-v), suffix);
    } else {
      var d := Decimal(v);
      assert (d + suffix)[0] == d[0];
      NoSpaceFirst(d + suffix);
    }
  }

  lemma NegativeStart(d: string, suffix: string)
    ensures var s := "-" + d + suffix; TrimStart(s) == s && s[0] == '-' && Unsigned(s) == d + suffix
  {
    var s := "-" + d + suffix;
    assert s[0] == '-';
    NoSpaceFirst(s);
    assert s[1..] == d + suffix;
  }

  lemma NoSpaceFirst(s: string)
    requires s != [] && (s[0] == '-' || '0' <= s[0] <= '9')
    ensures TrimStart(s) == s
  {
    assert !IsSpace(s[0]);
  }

  /** `parseInt` of the digits of `m` and a suffix that starts with no digit, `x` or `X` is `m`. */
  lemma MagnitudeOfDecimal(m: nat, suffix: string)
    requires suffix == [] || (DigitValue(suffix[0], 10).None? && suffix[0] != 'x' && suffix[0] != 'X')
    ensures ParseMagnitude(Decimal(m) + suffix) == Some(m)
  {
    var d := Decimal(m);
    var u := d + suffix;
    assert !(|u| >= 2 && u[0] == '0' && (u[1] == 'x' || u[1] == 'X')) by {
      if |d| >= 2 {
        assert u[0] == d[0];
      } else if |u| >= 2 {
        assert u[1] == suffix[0];
      }
    }
    DigitRunPrefix(d, suffix);
    assert u[..|d|] == d;
    DecimalValue(m);
  }

  lemma {:induction false} DigitRunPrefix(d: string, suffix: string)
    requires forall i | 0 <= i < |d| :: DigitValue(d[i], 10).Some?
    requires suffix == [] || DigitValue(suffix[0], 10).None?
    ensures DigitRun(d + suffix, 10) == |d|
    decreases |d|
  {
    if d == [] {
      assert d + suffix == suffix;
    } else {
      assert (d + suffix)[1..] == d[1..] + suffix;
      DigitRunPrefix(d[1..], suffix);
    }
  }

  /** The rendering of an integer ends with a digit. */
  lemma NumberTextEndsWithDigit(v: int)
    ensures var t := NumberText(Some(v)); '0' <= t[|t| - 1] <= '9'
  {
    var m: nat := if v < 0 then -v else v;
    var d := Decimal(m);
    var t := NumberText(Some(v));
    assert t[|t| - 1] == d[|d| - 1] by {
      if v < 0 {
        assert t == "-" + d;
      }
    }
    assert DigitValue(d[|d| - 1], 10).Some?;
  }
}
