/**
 * `clampInt(v, min, max)` and the `Number.parseInt(String(v), 10)` it rests on, plus the
 * decimal rendering of an integer used when `hours` is written into the upstream query.
 */
module Numbers {
  import opened Text

  predicate IsDigit(c: char) {
    '0' <= c <= '9'
  }

  ghost predicate AllDigits(s: string) {
    forall i :: 0 <= i < |s| ==> IsDigit(s[i])
  }

  function DigitValue(c: char): (r: nat)
    requires IsDigit(c)
    ensures r < 10
  {
    c as int - '0' as int
  }

  function DigitChar(d: nat): (c: char)
    requires d < 10
    ensures IsDigit(c) && DigitValue(c) == d
  {
    ('0' as int + d) as char
  }

  /** The value of a string of decimal digits, most significant first. */
  function DigitsValue(s: string): nat
    requires AllDigits(s)
  {
    if s == [] then 0 else 10 * DigitsValue(s[..|s| - 1]) + DigitValue(s[|s| - 1])
  }

  /** The longest prefix of `s` made of decimal digits. */
  function LeadingDigits(s: string): (r: string)
    ensures |r| <= |s| && r == s[..|r|] && AllDigits(r)
    ensures |r| == |s| || !IsDigit(s[|r|])
  {
    if s != [] && IsDigit(s[0]) then [s[0]] + LeadingDigits(s[1..]) else []
  }

  /** A JavaScript number as `parseInt` can produce it: `NaN`, a finite integer, or an
      infinity (a digit string too large for a double rounds to `Infinity`). */
  datatype Number = NaN | Finite(value: int) | Infinite

  /** 2^1024 - 2^970: the least magnitude that round-to-nearest sends to infinity. */
  const OverflowBound: nat := 179769313486231580793728971405303415079934132710037826936173778980444968292764750946649017977587207096330286416692887910946555547851940402630657488671505820681908902000708383676273854845817711531764475730270069855571366959622842914819860834936475292719074168444365510704342711559699508093042880177904174497792

  /** `Number.parseInt(s, 10)`: skip leading whitespace, take an optional sign, then the
      longest run of decimal digits; no digits gives `NaN`. Everything after the digits is
      ignored. */
  function ParseInt(s: string): (r: Number)
    ensures r.Finite? ==> -(OverflowBound as int) < r.value < OverflowBound
  {
    ParseSigned(TrimStart(s))
  }

  /** The sign step of `parseInt`, on text whose leading whitespace is gone. */
  function ParseSigned(t: string): (r: Number)
    ensures r.Finite? ==> -(OverflowBound as int) < r.value < OverflowBound
  {
    if t != [] && t[0] == '-' then
      match ParseDigits(t[1..])
      case Finite(m) => Finite(-m)
      case other => other
    else if t != [] && t[0] == '+' then ParseDigits(t[1..])
    else ParseDigits(t)
  }

  /** The digit step of `parseInt`: the longest leading digit run, read as a magnitude. */
  function ParseDigits(u: string): (r: Number)
    ensures r.Finite? ==> 0 <= r.value < OverflowBound
  {
    var digits := LeadingDigits(u);
    if digits == [] then NaN else FromMagnitude(DigitsValue(digits))
  }

  /** A magnitude as a double: at or past the overflow bound it is an infinity. */
  function FromMagnitude(m: nat): (r: Number)
    ensures r.Finite? <==> m < OverflowBound
    ensures r.Finite? ==> r.value == m
    ensures !r.Finite? ==> r == Infinite
  {
    if m >= OverflowBound then Infinite else Finite(m)
  }

  /** `clampInt(v, min, max)`: a finite parse is clamped into `[min, max]` with
      `Math.max(min, Math.min(max, n))`; `NaN` and the infinities give `min`. */
  function ClampInt(v: string, min: int, max: int): (r: int)
    ensures min <= max ==> min <= r <= max
    ensures ParseInt(v).Finite? && min <= ParseInt(v).value <= max ==> r == ParseInt(v).value
    ensures ParseInt(v).Finite? && ParseInt(v).value > max ==> r == (if min <= max then max else min)
    ensures ParseInt(v).Finite? && ParseInt(v).value < min ==> r == min
    ensures !ParseInt(v).Finite? ==> r == min
  {
    match ParseInt(v)
    case Finite(n) =>
      var upper := if n < max then n else max;
      if min > upper then min else upper
    case _ => min
  }

  /** The decimal rendering of a natural number (JavaScript's `${n}` for a non-negative
      integer): digits only, no leading zero, and its digits read back as `n`. */
  function DecimalString(n: nat): (r: string)
    ensures r != [] && AllDigits(r)
    ensures DigitsValue(r) == n
    ensures r[0] == '0' ==> n == 0
  {
    if n < 10 then [DigitChar(n)]
    else
      var prefix := DecimalString(n / 10);
      var r := prefix + [DigitChar(n % 10)];
      assert r[..|r| - 1] == prefix;
      r
  }

  /** `parseInt` reads a digit string, followed by anything that does not start with
      another digit, as the digits' value, as long as that value is below the overflow
      bound. */
  lemma ParseIntDigits(d: string, rest: string)
    requires d != [] && AllDigits(d) && DigitsValue(d) < OverflowBound
    requires rest == [] || !IsDigit(rest[0])
    ensures ParseInt(d + rest) == Finite(DigitsValue(d))
  {
    var s := d + rest;
    NoSpaceBeforeDigit(s);
    SignlessDigits(s);
    DigitsOf(d, rest);
  }

  /** `parseInt` reads a string of digits alone as its value. */
  lemma ParseIntAllDigits(d: string)
    requires d != [] && AllDigits(d) && DigitsValue(d) < OverflowBound
    ensures ParseInt(d) == Finite(DigitsValue(d))
  {
    ParseIntDigits(d, "");
    assert d + "" == d;
  }

  /** Text that starts with a digit has no leading whitespace. */
  lemma NoSpaceBeforeDigit(s: string)
    requires s != [] && IsDigit(s[0])
    ensures TrimStart(s) == s
  {
    assert !IsSpace(s[0]);
    TrimStartNoSpace(s);
  }

  /** Text that does not start with whitespace is its own `trimStart`. */
  lemma TrimStartNoSpace(s: string)
    requires s == [] || !IsSpace(s[0])
    ensures TrimStart(s) == s
  {
  }

  /** A one-character head and what follows it. */
  lemma Headed(c: char, d: string, rest: string)
    ensures var s := [c] + d + rest; s != [] && s[0] == c && s[1..] == d + rest
  {
  }

  /** Text that starts with a digit carries no sign. */
  lemma SignlessDigits(s: string)
    requires s != [] && IsDigit(s[0])
    ensures ParseSigned(s) == ParseDigits(s)
  {
  }

  lemma DigitsOf(d: string, rest: string)
    requires d != [] && AllDigits(d)
    requires rest == [] || !IsDigit(rest[0])
    ensures ParseDigits(d + rest) == FromMagnitude(DigitsValue(d))
  {
    LeadingDigitsOf(d, rest);
  }

  /** `parseInt` reads back what `DecimalString` writes, whatever follows the digits as
      long as it does not start with another digit. */
  lemma ParseIntDecimal(n: nat, rest: string)
    requires n < OverflowBound
    requires rest == [] || !IsDigit(rest[0])
    ensures ParseInt(DecimalString(n) + rest) == Finite(n)
  {
    ParseIntDigits(DecimalString(n), rest);
  }

  /** A minus sign before the digits negates their value. */
  lemma ParseIntMinus(d: string, rest: string)
    requires d != [] && AllDigits(d) && DigitsValue(d) < OverflowBound
    requires rest == [] || !IsDigit(rest[0])
    ensures ParseInt("-" + d + rest) == Finite(-(DigitsValue(d) as int))
  {
    var s := "-" + d + rest;
    Headed('-', d, rest);
    TrimStartNoSpace(s);
    DigitsOf(d, rest);
    assert ParseSigned(s) == Finite(-(DigitsValue(d) as int));
  }

  /** A plus sign before the digits leaves their value as it is. */
  lemma ParseIntPlus(d: string, rest: string)
    requires d != [] && AllDigits(d) && DigitsValue(d) < OverflowBound
    requires rest == [] || !IsDigit(rest[0])
    ensures ParseInt("+" + d + rest) == Finite(DigitsValue(d))
  {
    var s := "+" + d + rest;
    Headed('+', d, rest);
    TrimStartNoSpace(s);
    DigitsOf(d, rest);
    assert ParseSigned(s) == Finite(DigitsValue(d));
  }

  /** Leading whitespace is skipped: it never changes what `parseInt` reads. */
  lemma {:induction false} ParseIntSpaces(w: string, t: string)
    requires forall i :: 0 <= i < |w| ==> IsSpace(w[i])
    ensures ParseInt(w + t) == ParseInt(t)
    decreases |w|
  {
    if w == [] {
      assert w + t == t;
    } else {
      assert (w + t)[0] == w[0] && (w + t)[1..] == w[1..] + t;
      ParseIntSpaces(w[1..], t);
    }
  }

  /** Text that, after any whitespace, starts with neither a sign nor a digit reads as
      `NaN`. */
  lemma ParseIntNaN(t: string)
    requires t == [] || (!IsSpace(t[0]) && t[0] != '-' && t[0] != '+' && !IsDigit(t[0]))
    ensures ParseInt(t) == NaN
  {
  }

  lemma {:induction false} LeadingDigitsOf(d: string, rest: string)
    requires AllDigits(d)
    requires rest == [] || !IsDigit(rest[0])
    ensures LeadingDigits(d + rest) == d
    decreases |d|
  {
    if d == [] {
      assert d + rest == rest;
    } else {
      assert (d + rest)[1..] == d[1..] + rest;
      LeadingDigitsOf(d[1..], rest);
      assert d == [d[0]] + d[1..];
    }
  }
}
