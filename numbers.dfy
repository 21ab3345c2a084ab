/** The numeric tokens of a label line. The reader converts every token with
    Python's `float()`; this module models the decimal forms it accepts,
    `[+|-] digits [. digits] [(e|E) [+|-] digits]` with at least one mantissa
    digit, and gives the value as an exact real number. */
module Numbers {
  import opened Options

  predicate IsDigit(c: char) {
    '0' <= c <= '9'
  }

  predicate AllDigits(s: string) {
    forall i :: 0 <= i < |s| ==> IsDigit(s[i])
  }

  predicate IsSign(c: char) {
    c == '+' || c == '-'
  }

  /** The characters a numeric token can be made of. */
  predicate IsNumeralChar(c: char) {
    IsDigit(c) || IsSign(c) || c == '.' || c == 'e' || c == 'E'
  }

  function DigitValue(c: char): (d: nat)
    requires IsDigit(c)
    ensures d < 10
  {
    c as int - '0' as int
  }

  /** Value of a string of decimal digits, most significant first. */
  function NatValue(s: string): nat
    requires AllDigits(s)
    decreases |s|
  {
    if s == [] then 0 else 10 * NatValue(s[..|s| - 1]) + DigitValue(s[|s| - 1])
  }

  /** Value of the digits after a decimal point, `0.d1d2d3...`, which is always
      in [0, 1). */
  function FractionValue(s: string): (r: real)
    requires AllDigits(s)
    ensures 0.0 <= r < 1.0
    decreases |s|
  {
    if s == [] then 0.0 else (DigitValue(s[0]) as real + FractionValue(s[1..])) / 10.0
  }

  function Pow10(e: nat): (r: nat)
    ensures r >= 1
  {
    if e == 0 then 1 else 10 * Pow10(e - 1)
  }

  /** 10 raised to an integer power, as a real number. */
  function Scale(e: int): (r: real)
    ensures r > 0.0
    ensures e >= 0 ==> r >= 1.0
  {
    if e >= 0 then Pow10(e) as real else 1.0 / Pow10(-e) as real
  }

  /** `m` with its decimal point moved `e` places, one place at a time: to
      the right for a positive `e`, to the left for a negative one. */
  function Shift(m: real, e: int): real
    decreases if e >= 0 then e else -e
  {
    if e == 0 then m
    else if e > 0 then 10.0 * Shift(m, e - 1)
    else Shift(m, e + 1) / 10.0
  }

  /** The first index holding `a` or `b`, or `|s|` when neither occurs. */
  function FirstOf(s: string, a: char, b: char): (r: nat)
    ensures r <= |s|
    ensures forall i :: 0 <= i < r ==> s[i] != a && s[i] != b
    ensures r < |s| ==> s[r] == a || s[r] == b
    decreases |s|
  {
    if s == [] || s[0] == a || s[0] == b then 0 else 1 + FirstOf(s[1..], a, b)
  }

  /** The text after the exponent marker: an optional sign and at least one digit. */
  function ParseExponent(s: string): Option<int> {
    var digits := if |s| > 0 && IsSign(s[0]) then s[1..] else s;
    if |digits| > 0 && AllDigits(digits) then
      var v: int := NatValue(digits);
      Some(if |s| > 0 && s[0] == '-' then -v else v)
    else
      None
  }

  /** The text before the exponent: digits with at most one '.', and at least
      one digit on either side of it. */
  function ParseMantissa(s: string): Option<real> {
    var dot := FirstOf(s, '.', '.');
    var whole := s[..dot];
    var fraction := if dot < |s| then s[dot + 1..] else "";
    if AllDigits(whole) && AllDigits(fraction) && |whole| + |fraction| > 0 then
      Some(NatValue(whole) as real + FractionValue(fraction))
    else
      None
  }

  /** A token without its sign: a mantissa, optionally followed by an
      exponent marker and an exponent. */
  function ParseUnsigned(body: string): Option<real> {
    var e := FirstOf(body, 'e', 'E');
    if e == |body| then ParseMantissa(body)
    else
      match (ParseMantissa(body[..e]), ParseExponent(body[e + 1..]))
      case (Some(m), Some(x)) => Some(Shift(m, x))
      case _ => None
  }

  /** `float(t)` for a token of a label line: the number it denotes, or None
      where Python raises ValueError. */
  function ParseNumber(t: string): Option<real> {
    if |t| > 0 && IsSign(t[0]) then
      match ParseUnsigned(t[1..])
      case Some(v) => Some(if t[0] == '-' then -v else v)
      case None => None
    else
      ParseUnsigned(t)
  }

  /** Decimal rendering of a natural number, without leading zeros. */
  function NatToString(n: nat): (s: string)
    ensures |s| > 0 && AllDigits(s)
  {
    if n < 10 then ['0' + n as char]
    else NatToString(n / 10) + ['0' + (n % 10) as char]
  }

  lemma {:induction false} NatToStringRoundTrip(n: nat)
    ensures NatValue(NatToString(n)) == n
  {
    if n >= 10 {
      var s := NatToString(n);
      assert s[..|s| - 1] == NatToString(n / 10);
      NatToStringRoundTrip(n / 10);
    }
  }

  /** Searching a string that starts with `head` skips over `head` when
      neither character occurs in it. */
  lemma {:induction false} FirstOfSkipsHead(head: string, tail: string, a: char, b: char)
    requires forall i :: 0 <= i < |head| ==> head[i] != a && head[i] != b
    ensures FirstOf(head + tail, a, b) == |head| + FirstOf(tail, a, b)
    decreases |head|
  {
    if head != [] {
      var s := head + tail;
      assert s[0] == head[0];
      assert s[1..] == head[1..] + tail;
      FirstOfSkipsHead(head[1..], tail, a, b);
    } else {
      assert head + tail == tail;
    }
  }

  /** A digit string with no sign, point or exponent is an integer. */
  lemma {:induction false} ParseInteger(whole: string)
    requires |whole| > 0 && AllDigits(whole)
    ensures ParseNumber(whole) == Some(NatValue(whole) as real)
  {
    assert !IsSign(whole[0]);
    assert ParseUnsigned(whole) == ParseMantissa(whole) by {
      DigitsHoldNoMarker(whole, 'e', 'E');
    }
    assert ParseMantissa(whole) == Some(NatValue(whole) as real) by {
      DigitsHoldNoMarker(whole, '.', '.');
      MantissaWithoutPoint(whole);
    }
  }

  /** A mantissa with no point is its whole part alone. */
  lemma {:induction false} MantissaWithoutPoint(whole: string)
    requires |whole| > 0 && AllDigits(whole) && FirstOf(whole, '.', '.') == |whole|
    ensures ParseMantissa(whole) == Some(NatValue(whole) as real)
  {
    assert whole[..|whole|] == whole;
    assert FractionValue("") == 0.0;
  }

  lemma {:induction false} DigitsHoldNoMarker(s: string, a: char, b: char)
    requires AllDigits(s) && !IsDigit(a) && !IsDigit(b)
    ensures FirstOf(s, a, b) == |s|
  {
    assert s + "" == s;
    FirstOfSkipsHead(s, "", a, b);
  }

  /** "whole.fraction" denotes whole + 0.fraction (either side may be empty,
      not both), as Python reads "3.", ".5" and "0.25". */
  lemma {:induction false} ParseDecimal(whole: string, fraction: string)
    requires AllDigits(whole) && AllDigits(fraction) && |whole| + |fraction| > 0
    ensures ParseNumber(whole + "." + fraction) == Some(NatValue(whole) as real + FractionValue(fraction))
  {
    var t := whole + "." + fraction;
    assert forall i :: 0 <= i < |t| ==> t[i] != 'e' && t[i] != 'E' by {
      forall i | 0 <= i < |t| ensures t[i] != 'e' && t[i] != 'E' {
        if i < |whole| {
          assert t[i] == whole[i];
        } else if i > |whole| {
          assert t[i] == fraction[i - |whole| - 1];
        }
      }
    }
    assert t + "" == t;
    FirstOfSkipsHead(t, "", 'e', 'E');
    assert !IsSign(t[0]) by {
      if whole != [] {
        assert t[0] == whole[0];
      }
    }
    assert ParseNumber(t) == ParseMantissa(t);
    MantissaWithPoint(whole, fraction);
  }

  lemma {:induction false} MantissaWithPoint(whole: string, fraction: string)
    requires AllDigits(whole) && AllDigits(fraction) && |whole| + |fraction| > 0
    ensures ParseMantissa(whole + "." + fraction) == Some(NatValue(whole) as real + FractionValue(fraction))
  {
    var t := whole + "." + fraction;
    PointIndex(whole, fraction);
    assert t[..|whole|] == whole && t[|whole| + 1..] == fraction;
    MantissaAtPoint(t, |whole|, whole, fraction);
  }

  /** A mantissa split at its first point, stated over the two parts alone. */
  lemma {:induction false} MantissaAtPoint(s: string, dot: nat, whole: string, fraction: string)
    requires dot < |s| && FirstOf(s, '.', '.') == dot
    requires s[..dot] == whole && s[dot + 1..] == fraction
    requires AllDigits(whole) && AllDigits(fraction) && |whole| + |fraction| > 0
    ensures ParseMantissa(s) == Some(NatValue(whole) as real + FractionValue(fraction))
  {
  }

  lemma {:induction false} PointIndex(whole: string, fraction: string)
    requires AllDigits(whole)
    ensures FirstOf(whole + "." + fraction, '.', '.') == |whole|
  {
    assert whole + "." + fraction == whole + ("." + fraction);
    FirstOfSkipsHead(whole, "." + fraction, '.', '.');
    assert ("." + fraction)[0] == '.';
  }

  /** The leading digit of a digit string weighs 10 to the power of the
      number of digits after it. */
  lemma {:induction false} NatValueOfFirstDigit(s: string)
    requires |s| > 0 && AllDigits(s)
    ensures NatValue(s) == DigitValue(s[0]) * Pow10(|s| - 1) + NatValue(s[1..])
    decreases |s|
  {
    if |s| > 1 {
      var init, rest := s[..|s| - 1], s[1..];
      var d, last := DigitValue(s[0]), DigitValue(s[|s| - 1]);
      assert NatValue(init) == d * Pow10(|init| - 1) + NatValue(init[1..]) by {
        NatValueOfFirstDigit(init);
      }
      assert init[0] == s[0] && init[1..] == rest[..|rest| - 1] && rest[|rest| - 1] == s[|s| - 1];
      PrependDigit(d, Pow10(|init| - 1), NatValue(init[1..]), last, NatValue(s), NatValue(rest), Pow10(|s| - 1));
    }
  }

  /** The arithmetic of `NatValueOfFirstDigit`: appending a last digit to
      both `init` and its tail keeps the leading digit's weight in step. */
  lemma PrependDigit(d: nat, p: nat, tailOfInit: nat, last: nat, whole: nat, rest: nat, power: nat)
    requires whole == 10 * (d * p + tailOfInit) + last
    requires rest == 10 * tailOfInit + last && power == 10 * p
    ensures whole == d * power + rest
  {
    assert 10 * (d * p) == d * (10 * p);
  }

  /** The digits after a point denote the integer they spell divided by 10
      to the power of their number: "25" after the point is 25 / 100. */
  lemma {:induction false} FractionValueIsRatio(f: string)
    requires AllDigits(f)
    ensures FractionValue(f) == NatValue(f) as real / Pow10(|f|) as real
    decreases |f|
  {
    if f != [] {
      var tail := f[1..];
      FractionValueIsRatio(tail);
      NatValueOfFirstDigit(f);
      assert Pow10(|f|) == 10 * Pow10(|tail|);
      RatioStep(FractionValue(f), FractionValue(tail), DigitValue(f[0]), Pow10(|tail|),
                NatValue(tail), NatValue(f), Pow10(|f|));
    }
  }

  lemma {:induction false} RealOfProduct(a: nat, b: nat)
    ensures (a * b) as real == a as real * b as real
  {
    if b > 0 {
      RealOfProduct(a, b - 1);
      assert a * b == a * (b - 1) + a;
    }
  }

  /** One step of the ratio: prepending digit `d` to a tail whose value is
      `n / p` gives `(d * p + n) / (10 * p)`. */
  lemma {:induction false} RatioStep(value: real, tailValue: real, d: nat, p: nat, n: nat, whole: nat, scale: nat)
    requires p > 0
    requires value == (d as real + tailValue) / 10.0 && tailValue == n as real / p as real
    requires whole == d * p + n && scale == 10 * p
    ensures value == whole as real / scale as real
  {
    RealOfProduct(d, p);
    var dr, pr, nr := d as real, p as real, n as real;
    assert whole as real == dr * pr + nr;
    assert scale as real == 10.0 * pr;
    assert dr + nr / pr == (dr * pr + nr) / pr;
  }

  /** A mantissa followed by 'e' or 'E' and an exponent denotes the mantissa
      with its point moved by the exponent, which `ShiftIsScale` shows to be
      the mantissa times 10 to that power. */
  lemma {:induction false} ParseWithExponent(m: string, marker: char, x: string)
    requires marker == 'e' || marker == 'E'
    requires ParseMantissa(m).Some? && ParseExponent(x).Some?
    ensures ParseNumber(m + [marker] + x) == Some(Shift(ParseMantissa(m).value, ParseExponent(x).value))
  {
    var t := m + [marker] + x;
    assert FirstOf(t, 'e', 'E') == |m| && !IsSign(t[0]) by {
      MantissaChars(m);
      assert t == m + ([marker] + x);
      FirstOfSkipsHead(m, [marker] + x, 'e', 'E');
      if |m| > 0 {
        assert t[0] == m[0];
      }
    }
    UnsignedWithExponent(m, marker, x);
  }

  lemma {:induction false} UnsignedWithExponent(m: string, marker: char, x: string)
    requires FirstOf(m + [marker] + x, 'e', 'E') == |m|
    requires ParseMantissa(m).Some? && ParseExponent(x).Some?
    ensures ParseUnsigned(m + [marker] + x) == Some(Shift(ParseMantissa(m).value, ParseExponent(x).value))
  {
    var t := m + [marker] + x;
    assert t[..|m|] == m && t[|m| + 1..] == x;
    UnsignedAtMarker(t, |m|, ParseMantissa(m).value, ParseExponent(x).value);
  }

  lemma {:induction false} UnsignedAtMarker(body: string, e: nat, mantissa: real, exponent: int)
    requires e < |body| && FirstOf(body, 'e', 'E') == e
    requires ParseMantissa(body[..e]) == Some(mantissa) && ParseExponent(body[e + 1..]) == Some(exponent)
    ensures ParseUnsigned(body) == Some(Shift(mantissa, exponent))
  {
  }

  /** Moving the point `e` places multiplies by 10 to the power `e`. */
  lemma {:induction false} ShiftIsScale(m: real, e: int)
    ensures Shift(m, e) == m * Scale(e)
    decreases if e >= 0 then e else -e
  {
    if e > 0 {
      ShiftIsScale(m, e - 1);
      ScaleUp(m, e);
    } else if e < 0 {
      ShiftIsScale(m, e + 1);
      ScaleDown(m, e);
    }
  }

  lemma ScaleUp(m: real, e: int)
    requires e > 0
    ensures 10.0 * (m * Scale(e - 1)) == m * Scale(e)
  {
    var p := Pow10(e - 1) as real;
    assert Scale(e) == 10.0 * p;
    assert 10.0 * (m * p) == m * (10.0 * p);
  }

  lemma ScaleDown(m: real, e: int)
    requires e < 0
    ensures m * Scale(e + 1) / 10.0 == m * Scale(e)
  {
    var p := Pow10(-e - 1) as real;
    assert Pow10(-e) as real == 10.0 * p;
    if e + 1 == 0 {
      assert Scale(e) == 1.0 / 10.0;
    } else {
      assert Scale(e + 1) == 1.0 / p;
      assert Scale(e) == 1.0 / (10.0 * p);
      assert m * (1.0 / p) / 10.0 == m * (1.0 / (10.0 * p));
    }
  }

  /** "2.5E2" reads as 250. */
  lemma ParseScientificExample()
    ensures ParseNumber("2.5E2") == Some(250.0)
  {
    var m, x := "2.5", "2";
    assert ParseNumber(m + ['E'] + x) == Some(Shift(2.5, 2)) by {
      assert ParseMantissa(m) == Some(2.5) by {
        MantissaWithPoint("2", "5");
        assert "2" + "." + "5" == m;
        assert "2"[..0] == [] && NatValue("2") == 2;
        assert "5"[1..] == [] && FractionValue("5") == 0.5;
      }
      assert ParseExponent(x) == Some(2) by {
        assert !IsSign(x[0]) && AllDigits(x);
        assert x[..0] == [] && NatValue(x) == 2;
      }
      ParseWithExponent(m, 'E', x);
    }
    assert Shift(2.5, 2) == 250.0;
    assert m + ['E'] + x == "2.5E2";
  }

  /** Every natural number written out in decimal reads back as itself. */
  lemma ParseNatToString(n: nat)
    ensures ParseNumber(NatToString(n)) == Some(n as real)
  {
    ParseInteger(NatToString(n));
    NatToStringRoundTrip(n);
  }

  /** A leading '-' negates the value of an unsigned token and accepts exactly
      the same tokens. */
  lemma ParseNegated(t: string)
    requires |t| > 0 && !IsSign(t[0])
    ensures ParseNumber("-" + t).Some? <==> ParseNumber(t).Some?
    ensures ParseNumber(t).Some? ==> ParseNumber("-" + t) == Some(-ParseNumber(t).value)
  {
    assert ("-" + t)[1..] == t;
  }

  lemma MantissaChars(m: string)
    requires ParseMantissa(m).Some?
    ensures forall i :: 0 <= i < |m| ==> IsDigit(m[i]) || m[i] == '.'
  {
    var dot := FirstOf(m, '.', '.');
    forall i | 0 <= i < |m| ensures IsDigit(m[i]) || m[i] == '.' {
      if i < dot {
        assert m[..dot][i] == m[i];
      } else if i > dot {
        assert m[dot + 1..][i - dot - 1] == m[i];
      }
    }
  }

  lemma ExponentChars(x: string)
    requires ParseExponent(x).Some?
    ensures forall i :: 0 <= i < |x| ==> IsDigit(x[i]) || IsSign(x[i])
  {
    forall i | 0 <= i < |x| ensures IsDigit(x[i]) || IsSign(x[i]) {
      if i > 0 && IsSign(x[0]) {
        assert x[1..][i - 1] == x[i];
      }
    }
  }

  lemma UnsignedChars(body: string)
    requires ParseUnsigned(body).Some?
    ensures forall i :: 0 <= i < |body| ==> IsNumeralChar(body[i])
  {
    var e := FirstOf(body, 'e', 'E');
    if e == |body| {
      MantissaChars(body);
    } else {
      MantissaChars(body[..e]);
      ExponentChars(body[e + 1..]);
      forall i | 0 <= i < |body| ensures IsNumeralChar(body[i]) {
        if i < e {
          assert body[..e][i] == body[i];
        } else if i > e {
          assert body[e + 1..][i - e - 1] == body[i];
        }
      }
    }
  }

  /** A token holding any character other than digits, signs, '.', 'e' and
      'E' is not a number: "abc", "0.5px" and "1,5" are all rejected. */
  lemma RejectsForeignCharacter(t: string, i: int)
    requires 0 <= i < |t| && !IsNumeralChar(t[i])
    ensures ParseNumber(t) == None
  {
    if ParseNumber(t).Some? {
      if IsSign(t[0]) {
        UnsignedChars(t[1..]);
      } else {
        UnsignedChars(t);
      }
    }
  }
}
