/**
 * JavaScript's `Number(value)` conversion, restricted to the inputs an id can take:
 * numbers, booleans, `null`, `undefined`, objects, arrays, and strings in decimal notation.
 * NaN is `None`.
 */
module NumberConversion {
  import opened Wrappers
  import opened JsValues

  predicate IsDigit(c: char)
  {
    '0' <= c <= '9'
  }

  predicate AllDigits(s: string)
  {
    forall i | 0 <= i < |s| :: IsDigit(s[i])
  }

  /** `Number.isInteger` on a finite number. */
  predicate IsInteger(x: real)
  {
    x.Floor as real == x
  }

  /** The value of a string of decimal digits, most significant first (`""` is 0). */
  function DigitsValue(s: string): (v: nat)
    requires AllDigits(s)
  {
    if s == [] then 0 else 10 * DigitsValue(s[..|s| - 1]) + ((s[|s| - 1] as int) - ('0' as int))
  }

  function Pow10(n: nat): (p: nat)
    ensures p >= 1
  {
    if n == 0 then 1 else 10 * Pow10(n - 1)
  }

  /** The length of the longest prefix of `s` made of digits. */
  function DigitRun(s: string): (k: nat)
    ensures k <= |s| && AllDigits(s[..k])
    ensures k < |s| ==> !IsDigit(s[k])
  {
    if |s| == 0 || !IsDigit(s[0]) then 0 else 1 + DigitRun(s[1..])
  }

  /** The number written `w.f`. */
  function PointValue(w: string, f: string): (x: real)
    requires AllDigits(w) && AllDigits(f)
  {
    DigitsValue(w) as real + DigitsValue(f) as real / Pow10(|f|) as real
  }

  /**
   * An unsigned decimal literal without exponent: `digits`, `digits.`, `digits.digits` or `.digits`.
   * Anything else is NaN.
   */
  function ParseUnsignedDecimal(s: string): (r: Option<real>)
  {
    var k := DigitRun(s);
    if k == |s| then
      (if k == 0 then None else Some(DigitsValue(s) as real))
    else if s[k] != '.' then None
    else
      var frac := s[k + 1..];
      if !AllDigits(frac) || (k == 0 && frac == []) then None
      else Some(PointValue(s[..k], frac))
  }

  /** A decimal literal with an optional sign. */
  function ParseDecimal(s: string): (r: Option<real>)
  {
    if |s| > 0 && s[0] == '-' then
      match ParseUnsignedDecimal(s[1..])
      case None => None
      case Some(x) => Some(-x)
    else if |s| > 0 && s[0] == '+' then ParseUnsignedDecimal(s[1..])
    else ParseUnsignedDecimal(s)
  }

  /** `Number(s)` for a string: surrounding whitespace is ignored and a blank string is 0. */
  function StringToNumber(s: string): (r: Option<real>)
    ensures AllWhitespace(s) ==> r == Some(0.0)
  {
    TrimEmptyIff(s);
    var t := Trim(s);
    if t == [] then Some(0.0) else ParseDecimal(t)
  }

  /** `Number(v)`; `None` stands for NaN. */
  function ToNumber(v: JsValue): (r: Option<real>)
    ensures !v.JsNumber? && !v.JsString? ==> r == None || r == Some(0.0) || r == Some(1.0)
    ensures v.JsNumber? ==> r == Some(v.x)
  {
    match v
    case JsString(s) => StringToNumber(s)
    case JsNumber(x) => Some(x)
    case JsBool(b) => Some(if b then 1.0 else 0.0)
    case JsNull => Some(0.0)
    case JsUndefined => None
    case JsObject(_) => None
    case JsArray(elems) => if elems == [] then Some(0.0) else None
  }

  /** The shortest decimal spelling of `n`, as `String(n)` writes it for `n` below 10^21. */
  function DecimalString(n: nat): (s: string)
    ensures |s| > 0 && AllDigits(s)
  {
    if n < 10 then [('0' as int + n) as char]
    else DecimalString(n / 10) + [('0' as int + n % 10) as char]
  }

  lemma {:induction false} DecimalStringValue(n: nat)
    ensures DigitsValue(DecimalString(n)) == n
  {
    var s := DecimalString(n);
    if n >= 10 {
      DecimalStringValue(n / 10);
      assert s[..|s| - 1] == DecimalString(n / 10);
    }
  }

  lemma {:induction false} DigitsValueBound(s: string)
    requires AllDigits(s)
    ensures DigitsValue(s) < Pow10(|s|)
  {
    if s != [] {
      DigitsValueBound(s[..|s| - 1]);
    }
  }

  /** A fraction `f / p` with `0 <= f < p` lies in `[0, 1)` and is positive exactly when `f` is. */
  lemma ProperFraction(f: nat, p: nat)
    requires f < p
    ensures var q := f as real / p as real; 0.0 <= q < 1.0 && (q > 0.0 <==> f > 0)
  {
    var q := f as real / p as real;
    assert q * p as real == f as real;
  }

  /** `w + f / p` with `0 <= f < p`: non-negative, positive unless both are 0, an integer exactly when `f` is 0. */
  lemma MixedNumber(w: nat, f: nat, p: nat)
    requires f < p
    ensures var x := w as real + f as real / p as real;
      && x >= 0.0
      && (x > 0.0 <==> w > 0 || f > 0)
      && (IsInteger(x) <==> f == 0)
  {
    ProperFraction(f, p);
    var x := w as real + f as real / p as real;
    if f > 0 {
      assert x.Floor == w;
    }
  }

  /** `w.f` is never negative, is positive unless both parts are zero, and is an integer exactly when `f` is zero. */
  lemma PointValueFacts(w: string, f: string)
    requires AllDigits(w) && AllDigits(f)
    ensures PointValue(w, f) >= 0.0
    ensures PointValue(w, f) > 0.0 <==> DigitsValue(w) > 0 || DigitsValue(f) > 0
    ensures IsInteger(PointValue(w, f)) <==> DigitsValue(f) == 0
  {
    DigitsValueBound(f);
    MixedNumber(DigitsValue(w), DigitsValue(f), Pow10(|f|));
  }

  /** A string of digits converts to the number it spells. */
  lemma DigitsToNumber(d: string)
    requires |d| > 0 && AllDigits(d)
    ensures StringToNumber(d) == Some(DigitsValue(d) as real)
  {
    assert !IsWhitespace(d[0]) && !IsWhitespace(d[|d| - 1]);
    TrimClean(d);
    assert Trim(d) == d;
    assert d[0] != '-' && d[0] != '+';
    assert DigitRun(d) == |d|;
    assert ParseUnsignedDecimal(d) == Some(DigitsValue(d) as real);
  }

  /** Every natural number survives the trip through its decimal spelling. */
  lemma DecimalRoundTrip(n: nat)
    ensures StringToNumber(DecimalString(n)) == Some(n as real)
  {
    DecimalStringValue(n);
    DigitsToNumber(DecimalString(n));
  }

  /** The digit run of `w + rest` is `w` when `rest` does not start with a digit. */
  lemma {:induction false} DigitRunStopsAt(w: string, rest: string)
    requires AllDigits(w) && |rest| > 0 && !IsDigit(rest[0])
    ensures DigitRun(w + rest) == |w|
  {
    if w != [] {
      assert (w + rest)[1..] == w[1..] + rest;
      DigitRunStopsAt(w[1..], rest);
    }
  }

  /** A literal `w.f` (written `s`) converts to `w + f / 10^|f|`. */
  lemma PointLiteralToNumber(s: string, w: string, f: string)
    requires |w| > 0 && AllDigits(w) && AllDigits(f) && s == w + "." + f
    ensures StringToNumber(s) == Some(PointValue(w, f))
  {
    var last := s[|s| - 1];
    assert last == '.' || IsDigit(last) by {
      if f == [] { assert last == '.'; } else { assert last == f[|f| - 1]; }
    }
    assert s[0] == w[0];
    assert !IsWhitespace(s[0]) && !IsWhitespace(last);
    TrimClean(s);
    PointLiteralParses(s, w, f);
    assert ParseDecimal(s) == ParseUnsignedDecimal(s);
  }

  lemma PointLiteralParses(s: string, w: string, f: string)
    requires |w| > 0 && AllDigits(w) && AllDigits(f) && s == w + "." + f
    ensures ParseUnsignedDecimal(s) == Some(PointValue(w, f))
  {
    assert s == w + ("." + f);
    DigitRunStopsAt(w, "." + f);
    assert s[..|w|] == w;
    assert s[|w| + 1..] == f;
    assert s[|w|] == '.';
  }

  /** A sign in front of a literal: `'+d'` is `Number(d)`, and `'-d'` is its negation. */
  lemma SignedToNumber(d: string)
    requires |d| > 0 && !IsWhitespace(d[0]) && !IsWhitespace(d[|d| - 1]) && d[0] != '-' && d[0] != '+'
    ensures StringToNumber("+" + d) == StringToNumber(d)
    ensures StringToNumber("-" + d) == match StringToNumber(d) case None => None case Some(x) => Some(-x)
  {
    TrimClean(d);
    var plus, minus := "+" + d, "-" + d;
    assert plus[0] == '+' && plus[|plus| - 1] == d[|d| - 1] && plus[1..] == d;
    assert minus[0] == '-' && minus[|minus| - 1] == d[|d| - 1] && minus[1..] == d;
    TrimClean(plus);
    TrimClean(minus);
  }

  /** Whitespace around a string does not change the number it converts to. */
  lemma NumberIgnoresPadding(s: string, pre: string, post: string)
    requires AllWhitespace(pre) && AllWhitespace(post)
    ensures StringToNumber(pre + s + post) == StringToNumber(s)
  {
    TrimIgnoresPadding(s, pre, post);
  }

  /** A literal `.f` converts to `f / 10^|f|`. */
  lemma LeadingPointToNumber(f: string)
    requires |f| > 0 && AllDigits(f)
    ensures StringToNumber("." + f) == Some(PointValue("", f))
  {
    var s := "." + f;
    assert s[|s| - 1] == f[|f| - 1];
    assert !IsWhitespace(s[0]) && !IsWhitespace(s[|s| - 1]);
    TrimClean(s);
    assert DigitRun(s) == 0;
    assert s[1..] == f;
    assert s[..0] == "";
  }

  /** An unsigned decimal literal: digits, or digits and a point and digits with at least one digit in all. */
  ghost predicate UnsignedLiteral(u: string)
  {
    || (|u| > 0 && AllDigits(u))
    || exists w, f :: AllDigits(w) && AllDigits(f) && |w| + |f| > 0 && u == w + "." + f
  }

  /** The unsigned parser accepts nothing but an unsigned decimal literal. */
  lemma UnsignedShape(u: string)
    requires ParseUnsignedDecimal(u).Some?
    ensures UnsignedLiteral(u)
  {
    var k := DigitRun(u);
    if k == |u| {
      assert u[..k] == u;
    } else {
      assert u == u[..k] + "." + u[k + 1..];
    }
  }

  /** The decimal parser accepts only an unsigned literal, or one sign followed by an unsigned literal. */
  lemma ParsedShape(t: string)
    requires ParseDecimal(t).Some?
    ensures UnsignedLiteral(t) || (|t| > 0 && t[0] in "+-" && UnsignedLiteral(t[1..]))
  {
    if |t| > 0 && (t[0] == '-' || t[0] == '+') {
      UnsignedShape(t[1..]);
    } else {
      UnsignedShape(t);
    }
  }

  /** Every value `ParseDecimal` accepts is spelled with digits, signs and points only. */
  lemma ParsedCharacters(t: string, i: nat)
    requires ParseDecimal(t).Some? && i < |t|
    ensures IsDigit(t[i]) || t[i] in "+-."
  {
    var u := if |t| > 0 && (t[0] == '-' || t[0] == '+') then t[1..] else t;
    var off := |t| - |u|;
    assert ParseUnsignedDecimal(u).Some?;
    if i >= off {
      var j := i - off;
      assert t[i] == u[j];
      var k := DigitRun(u);
      if j < k {
        assert u[j] == u[..k][j];
      } else if j > k {
        assert u[j] == u[k + 1..][j - k - 1];
      }
    }
  }
}
