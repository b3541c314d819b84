/**
 * The JavaScript number built-ins the configurator relies on, over exact reals: `parseFloat`
 * on decimal text, `Math.round`, and the value of `toFixed(2)`.
 */
module JsNumber {
  import opened Results
  import opened JsText

  predicate IsDigit(c: char) {
    '0' <= c <= '9'
  }

  ghost predicate AllDigits(d: string) {
    forall i :: 0 <= i < |d| ==> IsDigit(d[i])
  }

  /** The length of the run of decimal digits at the start of `s`. */
  function LeadingDigits(s: string): (n: nat)
    ensures n <= |s|
    ensures AllDigits(s[..n])
    ensures n < |s| ==> !IsDigit(s[n])
  {
    if |s| > 0 && IsDigit(s[0]) then
      var n := 1 + LeadingDigits(s[1..]);
      assert forall i :: 1 <= i < n ==> s[..n][i] == s[1..][..n - 1][i - 1];
      n
    else 0
  }

  function Pow10(n: nat): (p: nat)
    ensures p >= 1
  {
    if n == 0 then 1 else 10 * Pow10(n - 1)
  }

  /** `10^e` for any integer exponent. */
  function Scale(e: int): (r: real)
    ensures r > 0.0
  {
    if e >= 0 then Pow10(e) as real else 1.0 / Pow10(-e) as real
  }

  /** The value of a string of decimal digits, most significant first. */
  function DigitsValue(d: string): nat
    requires AllDigits(d)
  {
    if |d| == 0 then 0
    else DigitsValue(d[..|d| - 1]) * 10 + (d[|d| - 1] as int - '0' as int)
  }

  /** An exponent part `e`/`E`, optional sign, at least one digit; 0 when there is none. */
  function ExponentOf(w: string): int {
    if |w| >= 2 && (w[0] == 'e' || w[0] == 'E') then
      var v := w[1..];
      var neg := v[0] == '-';
      var x := if v[0] == '+' || v[0] == '-' then v[1..] else v;
      var m := LeadingDigits(x);
      if m == 0 then 0
      else if neg then -(DigitsValue(x[..m]) as int)
      else DigitsValue(x[..m]) as int
    else 0
  }

  /** Integer digits and fraction digits read as one decimal value. */
  function Decimal(whole: string, frac: string): real
    requires AllDigits(whole) && AllDigits(frac)
  {
    DigitsValue(whole) as real + DigitsValue(frac) as real / Pow10(|frac|) as real
  }

  /** The longest unsigned decimal literal at the start of `u`, or `None` when there is none. */
  function ParseUnsigned(u: string): Option<real> {
    var n := LeadingDigits(u);
    var rest := u[n..];
    if |rest| > 0 && rest[0] == '.' then
      var w := rest[1..];
      var f := LeadingDigits(w);
      if n == 0 && f == 0 then None
      else Some(Decimal(u[..n], w[..f]) * Scale(ExponentOf(w[f..])))
    else if n == 0 then None
    else Some(DigitsValue(u[..n]) as real * Scale(ExponentOf(rest)))
  }

  /** An optional `+` or `-` followed by an unsigned literal. */
  function ParseSigned(t: string): Option<real> {
    if |t| > 0 && t[0] == '-' then
      match ParseUnsigned(t[1..])
      case Some(m) => Some(-m)
      case None => None
    else if |t| > 0 && t[0] == '+' then ParseUnsigned(t[1..])
    else ParseUnsigned(t)
  }

  /**
   * `parseFloat(s)`: skips leading whitespace and reads the longest prefix that is a decimal
   * literal (optional sign, digits with an optional fraction, optional exponent). `None` stands
   * for NaN: no such prefix exists.
   */
  function ParseFloat(s: string): Option<real> {
    ParseSigned(TrimStart(s))
  }

  /** `Number(x) || 0` after `parseFloat`: NaN becomes 0. */
  function NumberOrZero(v: Option<real>): real {
    match v
    case Some(x) => x
    case None => 0.0
  }

  /** The decimal text of a natural number, as `String(n)` writes it. */
  function NatToString(n: nat): (d: string)
    ensures |d| >= 1
    ensures AllDigits(d)
  {
    var c := ('0' as int + n % 10) as char;
    if n < 10 then [c] else NatToString(n / 10) + [c]
  }

  lemma {:induction false} DigitsValueOfNatToString(n: nat)
    ensures DigitsValue(NatToString(n)) == n
  {
    var d := NatToString(n);
    if n >= 10 {
      DigitsValueOfNatToString(n / 10);
      assert d[..|d| - 1] == NatToString(n / 10);
    }
  }

  lemma {:induction false} LeadingDigitsOfDigitsThen(d: string, tail: string)
    requires AllDigits(d)
    requires |tail| > 0 ==> !IsDigit(tail[0])
    ensures LeadingDigits(d + tail) == |d|
  {
    if |d| > 0 {
      assert (d + tail)[0] == d[0];
      assert (d + tail)[1..] == d[1..] + tail;
      LeadingDigitsOfDigitsThen(d[1..], tail);
    } else {
      assert d + tail == tail;
    }
  }

  /**
   * A natural number written in decimal, followed by text that cannot continue a number
   * (a currency sign, a space, nothing), parses back to that number: `parseFloat` reads the
   * digits and ignores the rest.
   */
  lemma ParseFloatOfNatText(n: nat, tail: string)
    requires |tail| > 0 ==> !IsDigit(tail[0]) && tail[0] != '.' && tail[0] != 'e' && tail[0] != 'E'
    ensures ParseFloat(NatToString(n) + tail) == Some(n as real)
  {
    var d := NatToString(n);
    var s := d + tail;
    assert s[0] == d[0];
    assert TrimStart(s) == s;
    LeadingDigitsOfDigitsThen(d, tail);
    assert s[..|d|] == d;
    assert s[|d|..] == tail;
    DigitsValueOfNatToString(n);
  }

  /** Text whose first visible character cannot start a number parses to NaN. */
  lemma ParseFloatRejects(s: string)
    requires var t := TrimStart(s);
      |t| > 0 && !IsDigit(t[0]) && t[0] != '+' && t[0] != '-' && t[0] != '.'
    ensures ParseFloat(s) == None
  {
  }

  /** Leading whitespace never changes what `parseFloat` reads. */
  lemma {:induction false} ParseFloatSkipsWhitespace(ws: string, s: string)
    requires AllWhitespace(ws)
    ensures ParseFloat(ws + s) == ParseFloat(s)
  {
    TrimStartSkips(ws, s);
  }

  lemma TrimStartSkips(ws: string, s: string)
    requires AllWhitespace(ws)
    ensures TrimStart(ws + s) == TrimStart(s)
  {
    LeadingAfterSpaces(ws, s);
    assert (ws + s)[|ws| + Leading(s)..] == s[Leading(s)..];
  }

  /**
   * `Math.round(x)`: the integer closest to `x`, halves going up (towards +infinity).
   */
  function Round(x: real): (r: int)
    ensures r as real - 0.5 <= x < r as real + 0.5
  {
    (x + 0.5).Floor
  }

  /** An integer is its own rounding. */
  lemma RoundOfInt(n: int)
    ensures Round(n as real) == n
  {
  }

  /**
   * The value of `x.toFixed(2)`: `x` to two decimals, halves away from zero (toFixed rounds the
   * magnitude and puts the sign back).
   */
  function Fixed2(x: real): (r: real)
    ensures r * 100.0 == (r * 100.0).Floor as real
    ensures x >= 0.0 ==> -0.005 < r - x <= 0.005
    ensures x < 0.0 ==> -0.005 <= r - x < 0.005
    ensures x >= 0.0 ==> r >= 0.0
  {
    if x < 0.0 then
      var c := Round(-x * 100.0);
      CentsNear(-x, c);
      -Cents(c)
    else
      var c := Round(x * 100.0);
      CentsNear(x, c);
      Cents(c)
  }

  /** `c` hundredths, a whole number of them. */
  function Cents(c: int): (r: real)
    ensures r * 100.0 == c as real
    ensures (r * 100.0).Floor == c && ((-r) * 100.0).Floor == -c
  {
    c as real / 100.0
  }

  /** Whole cents `c` that round `100 * y` lie within half a cent of `y`, above it at a tie. */
  lemma CentsNear(y: real, c: int)
    requires c as real - 0.5 <= y * 100.0 < c as real + 0.5
    ensures -0.005 < Cents(c) - y <= 0.005
  {
  }

  /** A value with at most two decimals is its own `toFixed(2)`. */
  lemma Fixed2OfCents(c: int)
    ensures Fixed2(c as real / 100.0) == c as real / 100.0
  {
    var x := c as real / 100.0;
    assert x * 100.0 == c as real;
    if x < 0.0 {
      assert -x * 100.0 == (-c) as real;
      RoundOfInt(-c);
    } else {
      RoundOfInt(c);
    }
  }
}
