/**
 * Numbers as the templates see them. The host's `makeNumber` (JavaScript's
 * `Number` applied to a string) is modelled on decimal literals and yields an
 * exact decimal, or nothing for NaN; `makeString` of a number prints that
 * decimal back in positional notation. Parsing what was printed gives the
 * same number back.
 */
module Numbers {
  import opened Wrappers
  import opened Strings

  /** The number `mantissa / 10^scale`, exactly. */
  datatype Decimal = Decimal(mantissa: int, scale: nat)

  /** The one representation of each number: no trailing zero after the decimal point. */
  predicate Canonical(d: Decimal) {
    d.scale == 0 || d.mantissa % 10 != 0
  }

  function Pow10(k: nat): (p: nat)
    ensures p >= 1
  {
    if k == 0 then 1 else 10 * Pow10(k - 1)
  }

  function Abs(m: int): nat {
    if m < 0 then -m else m
  }

  lemma Mod10Neg(m: int)
    ensures (m % 10 == 0) <==> ((-m) % 10 == 0)
  {
    if m % 10 == 0 {
      var q := m / 10;
      assert -m == 10 * (-q);
      TenTimes(-q);
    }
    if (-m) % 10 == 0 {
      var q := (-m) / 10;
      assert m == 10 * (-q);
      TenTimes(-q);
    }
  }

  lemma TenTimes(q: int)
    ensures (10 * q) % 10 == 0
  {
  }

  /** The canonical form of `m / 10^k`: trailing zeros of the mantissa are dropped. */
  function Canonicalize(m: int, k: nat): (d: Decimal)
    ensures Canonical(d)
    ensures d.scale <= k
    ensures d.mantissa * Pow10(k - d.scale) == m
    ensures Canonical(Decimal(m, k)) ==> d == Decimal(m, k)
    ensures m >= 0 ==> d.mantissa >= 0
    decreases k
  {
    if k > 0 && m % 10 == 0 then
      var d := Canonicalize(m / 10, k - 1);
      assert Pow10(k - d.scale) == 10 * Pow10(k - 1 - d.scale);
      assert d.mantissa * Pow10(k - d.scale) == 10 * (d.mantissa * Pow10(k - 1 - d.scale));
      d
    else Decimal(m, k)
  }

  function Negate(d: Decimal): (r: Decimal)
    ensures Canonical(d) ==> Canonical(r)
  {
    Mod10Neg(d.mantissa);
    Decimal(-d.mantissa, d.scale)
  }

  // ---------------------------------------------------------------------------
  // Digit strings
  // ---------------------------------------------------------------------------

  predicate IsDigit(c: char) {
    '0' <= c <= '9'
  }

  predicate AllDigits(s: string) {
    forall i :: 0 <= i < |s| ==> IsDigit(s[i])
  }

  function DigitChar(n: nat): (c: char)
    requires n < 10
    ensures IsDigit(c) && c as int - '0' as int == n
  {
    (n + '0' as int) as char
  }

  /** The value of a string of decimal digits (leading zeros allowed). */
  function DigitsValue(s: string): nat
    requires AllDigits(s)
  {
    if s == [] then 0
    else DigitsValue(s[..|s| - 1]) * 10 + (s[|s| - 1] as int - '0' as int)
  }

  /** The shortest decimal digit string of `n`: no leading zero unless it is "0". */
  function NatToDigits(n: nat): (s: string)
    ensures |s| >= 1 && AllDigits(s)
    ensures s[0] != '0' || s == "0"
    decreases n
  {
    if n < 10 then [DigitChar(n)] else NatToDigits(n / 10) + [DigitChar(n % 10)]
  }

  /** Printing a natural number in decimal and reading it back gives the number. */
  lemma {:induction false} DigitsRoundTrip(n: nat)
    ensures DigitsValue(NatToDigits(n)) == n
    decreases n
  {
    if n >= 10 {
      DigitsRoundTrip(n / 10);
      var s := NatToDigits(n);
      assert s[..|s| - 1] == NatToDigits(n / 10);
    }
  }

  /** A digit string without a superfluous leading zero is the printed form of its value. */
  lemma {:induction false} DigitsCanonical(s: string)
    requires |s| >= 1 && AllDigits(s)
    requires s[0] != '0' || s == "0"
    ensures NatToDigits(DigitsValue(s)) == s
    decreases |s|
  {
    var init := s[..|s| - 1];
    var last := s[|s| - 1] as int - '0' as int;
    if |s| == 1 {
      assert DigitsValue(s) == last;
      assert DigitChar(last) == s[0];
    } else {
      assert init[0] == s[0];
      DigitsCanonical(init);
      PositiveLeading(init);
      assert DigitsValue(s) == DigitsValue(init) * 10 + last;
      assert DigitsValue(s) / 10 == DigitsValue(init) && DigitsValue(s) % 10 == last;
      assert DigitChar(last) == s[|s| - 1];
      assert s == init + [s[|s| - 1]];
    }
  }

  /** A digit string starting with a non-zero digit has a value of at least 1. */
  lemma {:induction false} PositiveLeading(s: string)
    requires |s| >= 1 && AllDigits(s) && s[0] != '0'
    ensures DigitsValue(s) >= 1
    decreases |s|
  {
    if |s| > 1 {
      PositiveLeading(s[..|s| - 1]);
    }
  }

  function Zeros(k: nat): (z: string)
    ensures |z| == k && AllDigits(z)
    ensures forall i :: 0 <= i < k ==> z[i] == '0'
  {
    seq(k, _ => '0')
  }

  /** Leading zeros do not change the value of a digit string. */
  lemma {:induction false} LeadingZeros(k: nat, s: string)
    requires AllDigits(s)
    ensures AllDigits(Zeros(k) + s) && DigitsValue(Zeros(k) + s) == DigitsValue(s)
    decreases |s|
  {
    var zs := Zeros(k) + s;
    if s == [] {
      assert zs == Zeros(k);
      ZerosValue(k);
    } else {
      LeadingZeros(k, s[..|s| - 1]);
      assert zs[..|zs| - 1] == Zeros(k) + s[..|s| - 1];
    }
  }

  lemma {:induction false} ZerosValue(k: nat)
    ensures DigitsValue(Zeros(k)) == 0
  {
    if k > 0 {
      ZerosValue(k - 1);
      assert Zeros(k)[..k - 1] == Zeros(k - 1);
    }
  }

  // ---------------------------------------------------------------------------
  // makeNumber and makeString
  // ---------------------------------------------------------------------------

  /** The digits of a literal with an optional single decimal point; None when
      the text is not such a literal. */
  function ParseUnsigned(body: string): (r: Option<Decimal>)
    ensures r.Some? ==> Canonical(r.value) && r.value.mantissa >= 0
  {
    var parts := Split(body, '.');
    if |parts| > 2 then None
    else
      var whole := parts[0];
      var fraction := if |parts| == 2 then parts[1] else "";
      if AllDigits(whole) && AllDigits(fraction) && |whole| + |fraction| > 0
      then
        Some(Canonicalize(DigitsValue(whole + fraction), |fraction|))
      else None
  }

  /** `makeNumber(s)` for a string: surrounding whitespace is ignored, the empty
      string is 0, and otherwise the text must be an optional sign followed by
      digits with at most one decimal point. None stands for NaN. */
  function ParseNumber(s: string): (r: Option<Decimal>)
    ensures r.Some? ==> Canonical(r.value)
  {
    var t := Trim(s);
    if t == "" then Some(Decimal(0, 0))
    else if t[0] == '-' then
      match ParseUnsigned(t[1..])
      case None => None
      case Some(d) => Some(Negate(d))
    else if t[0] == '+' then ParseUnsigned(t[1..])
    else ParseUnsigned(t)
  }

  lemma DigitsHaveNoSeparator(s: string)
    requires AllDigits(s)
    ensures '.' !in s && ',' !in s && '-' !in s
  {
    assert forall i :: 0 <= i < |s| ==> IsDigit(s[i]);
  }

  /** A string that starts and ends with a digit has nothing to trim. */
  lemma TrimmedBetweenDigits(s: string)
    requires |s| >= 1 && IsDigit(s[0]) && IsDigit(s[|s| - 1])
    ensures Trim(s) == s
  {
  }

  /** The digits of `m` padded with leading zeros to more than `k` digits. */
  function Padded(m: nat, k: nat): (p: string)
    ensures AllDigits(p) && |p| > k && DigitsValue(p) == m
  {
    var digits := NatToDigits(m);
    DigitsRoundTrip(m);
    if |digits| <= k then
      LeadingZeros(k + 1 - |digits|, digits);
      Zeros(k + 1 - |digits|) + digits
    else digits
  }

  /** The digits of a non-negative canonical decimal `m / 10^k`, with the point
      inserted before the last `k` digits when `k > 0`. */
  function UnsignedToString(m: nat, k: nat): (s: string)
    ensures |s| >= 1 && IsDigit(s[0]) && IsDigit(s[|s| - 1])
    ensures ',' !in s && '-' !in s
    ensures CountChar(s, '.') <= 1
  {
    if k == 0 then
      var digits := NatToDigits(m);
      DigitsHaveNoSeparator(digits);
      CountCharZero(digits, '.');
      digits
    else
      var p := Padded(m, k);
      var whole := p[..|p| - k];
      var fraction := p[|p| - k..];
      DigitsHaveNoSeparator(whole);
      DigitsHaveNoSeparator(fraction);
      var body := Join([whole, fraction], ".");
      assert [whole, fraction] == [whole] + [fraction];
      JoinCons(whole, [fraction], ".");
      assert body == whole + "." + fraction;
      assert body[0] == p[0] && body[|body| - 1] == p[|p| - 1];
      CountCharConcat(whole + ".", fraction, '.');
      CountCharConcat(whole, ".", '.');
      CountCharZero(whole, '.');
      CountCharZero(fraction, '.');
      assert CountChar(".", '.') == 1;
      body
  }

  /** `makeString(n)` for a number, in positional notation: the canonical form,
      a minus sign when negative, and a point only when there is a fraction. */
  function DecimalToString(d: Decimal): (s: string)
    ensures |s| >= 1 && ',' !in s && CountChar(s, '.') <= 1
    ensures !IsWhitespace(s[0]) && !IsWhitespace(s[|s| - 1])
  {
    var c := Canonicalize(d.mantissa, d.scale);
    var u := UnsignedToString(Abs(c.mantissa), c.scale);
    if c.mantissa < 0 then
      Signed(u);
      "-" + u
    else u
  }

  /** A minus sign in front of a number's digits keeps the separators as they are. */
  lemma Signed(u: string)
    requires |u| >= 1 && IsDigit(u[|u| - 1]) && ',' !in u && CountChar(u, '.') <= 1
    ensures var s := "-" + u; ',' !in s && CountChar(s, '.') <= 1 && !IsWhitespace(s[0]) && !IsWhitespace(s[|s| - 1])
  {
    var s := "-" + u;
    assert s[|s| - 1] == u[|u| - 1] && s[0] == '-';
    CountCharConcat("-", u, '.');
    assert CountChar("-", '.') == 0;
  }

  lemma ParseOfPoint(whole: string, fraction: string)
    requires AllDigits(whole) && AllDigits(fraction) && |whole| + |fraction| > 0
    ensures ParseUnsigned(Join([whole, fraction], ".")) == Some(Canonicalize(DigitsValue(whole + fraction), |fraction|))
  {
    DigitsHaveNoSeparator(whole);
    DigitsHaveNoSeparator(fraction);
    SplitJoin([whole, fraction], '.');
  }

  /** The unsigned printed form parses back to the same digits and scale. */
  lemma UnsignedRoundTrip(m: nat, k: nat)
    requires k == 0 || m % 10 != 0
    ensures ParseUnsigned(UnsignedToString(m, k)) == Some(Decimal(m, k))
  {
    if k == 0 {
      var digits := NatToDigits(m);
      DigitsRoundTrip(m);
      DigitsHaveNoSeparator(digits);
      SplitWithout(digits, '.');
      assert digits + "" == digits;
    } else {
      var p := Padded(m, k);
      var whole := p[..|p| - k];
      var fraction := p[|p| - k..];
      assert whole + fraction == p;
      ParseOfPoint(whole, fraction);
    }
  }

  /** Printing a number and reading it back with `makeNumber` gives the number. */
  lemma DecimalRoundTrip(d: Decimal)
    ensures ParseNumber(DecimalToString(d)) == Some(Canonicalize(d.mantissa, d.scale))
  {
    var c := Canonicalize(d.mantissa, d.scale);
    var u := UnsignedToString(Abs(c.mantissa), c.scale);
    Mod10Neg(c.mantissa);
    UnsignedRoundTrip(Abs(c.mantissa), c.scale);
    var s := DecimalToString(d);
    assert Trim(s) == s;
    if c.mantissa < 0 {
      assert s[0] == '-' && s[1..] == u;
    } else {
      assert s == u && s[0] != '-' && s[0] != '+';
    }
  }

  /** A digit string reads as the integer it spells. */
  lemma DigitsNumber(s: string)
    requires |s| >= 1 && AllDigits(s)
    ensures ParseNumber(s) == Some(Canonicalize(DigitsValue(s), 0))
  {
    assert IsDigit(s[0]) && IsDigit(s[|s| - 1]);
    TrimmedBetweenDigits(s);
    assert s[0] != '-' && s[0] != '+';
    UnsignedDigits(s);
  }

  /** A single letter is no number. */
  lemma LetterIsNoNumber(c: char)
    requires 'a' <= c <= 'z'
    ensures ParseNumber([c]).None?
  {
    var s := [c];
    assert !IsWhitespace(s[0]) && s[0] != '-' && s[0] != '+';
    assert Trim(s) == s;
    LetterIsNoUnsigned(c);
  }

  lemma LetterIsNoUnsigned(c: char)
    requires 'a' <= c <= 'z'
    ensures ParseUnsigned([c]).None?
  {
    SplitWithout([c], '.');
    assert !IsDigit(c);
  }

  lemma UnsignedDigits(s: string)
    requires |s| >= 1 && AllDigits(s)
    ensures ParseUnsigned(s) == Some(Canonicalize(DigitsValue(s), 0))
  {
    DigitsHaveNoSeparator(s);
    SplitWithout(s, '.');
    assert s + "" == s;
  }
}
