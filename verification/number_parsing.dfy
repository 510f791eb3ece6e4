/**
 * `int.Parse` and `double.Parse` as the reading parser calls them: default
 * number styles, invariant-culture symbols (`+`, `-`, `.`).  A `double` is
 * idealised as the exact `real` its decimal text denotes.
 */
module NumberParsing {
  import opened Failures
  import opened Text
  import Int32

  /**
   * `int.Parse(s)`: optional white space, an optional sign, one or more
   * decimal digits, optional white space.  Text of any other shape is a
   * FormatError; well-formed text outside the 32-bit range is an OverflowError.
   */
  function ParseInt32(s: string): (r: Result<int>)
    ensures r.Ok? ==> Int32.InRange(r.value)
  {
    var (negative, digits) := SplitSign(Trim(s));
    if |digits| == 0 || !AllDigits(digits) then Err(FormatError)
    else
      var d: int := DigitsValue(digits);
      var v := if negative then -d else d;
      if Int32.InRange(v) then Ok(v) else Err(OverflowError)
  }

  /** The optional exponent suffix `e`/`E`, optional sign, digits; absent means 0. */
  function Exponent(t: string): Result<int> {
    if |t| == 0 then Ok(0)
    else if t[0] == 'e' || t[0] == 'E' then
      var (negative, ds) := SplitSign(t[1..]);
      if |ds| > 0 && AllDigits(ds) then
        var e: int := DigitsValue(ds);
        Ok(if negative then -e else e)
      else Err(FormatError)
    else Err(FormatError)
  }

  /** `x * 10^e` for any integer exponent. */
  function Scale(x: real, e: int): real {
    if e >= 0 then x * Pow10(e) as real else x / Pow10(-e) as real
  }

  /**
   * The digits before an optional decimal point, the digits after it, and the
   * text that follows them.
   */
  function SplitMantissa(body: string): (r: (string, string, string))
    ensures AllDigits(r.0) && AllDigits(r.1)
  {
    var k := DigitRun(body);
    var afterWhole := body[k..];
    if |afterWhole| > 0 && afterWhole[0] == '.' then
      var afterPoint := afterWhole[1..];
      var f := DigitRun(afterPoint);
      (body[..k], afterPoint[..f], afterPoint[f..])
    else (body[..k], "", afterWhole)
  }

  /**
   * `double.Parse(s)`: optional white space, an optional sign, digits with at
   * most one decimal point (at least one digit in all), an optional exponent,
   * optional white space; anything else is a FormatError.  It never fails
   * in any other way.
   */
  function ParseDouble(s: string): (r: Result<real>)
    ensures r.Err? ==> r.error == FormatError
  {
    var (negative, body) := SplitSign(Trim(s));
    var (whole, fraction, rest) := SplitMantissa(body);
    if |whole| + |fraction| == 0 then Err(FormatError)
    else
      match Exponent(rest)
      case Err(e) => Err(e)
      case Ok(e) =>
        var magnitude := Scale(DigitsValue(whole + fraction) as real, e - |fraction|);
        Ok(if negative then -magnitude else magnitude)
  }

  lemma SignOfShowInt(n: int)
    ensures SplitSign(ShowInt(n)) == (n < 0, ShowNat(if n < 0 then -n else n))
  {
    if n >= 0 {
      assert IsDigit(ShowNat(n)[0]);
    } else {
      assert ShowInt(n)[1..] == ShowNat(-n);
    }
  }

  /** Every 32-bit integer survives a ToString / int.Parse round trip. */
  lemma ParseInt32OfShowInt(n: int)
    ensures Int32.InRange(n) ==> ParseInt32(ShowInt(n)) == Ok(n)
    ensures !Int32.InRange(n) ==> ParseInt32(ShowInt(n)) == Err(OverflowError)
  {
    TrimOfUnpadded(ShowInt(n));
    SignOfShowInt(n);
    DigitsValueOfShowNat(if n < 0 then -n else n);
  }

  /** An integer written without a decimal point parses as that exact value. */
  lemma ParseDoubleOfShowInt(n: int)
    ensures ParseDouble(ShowInt(n)) == Ok(n as real)
  {
    var s := ShowInt(n);
    TrimOfUnpadded(s);
    SignOfShowInt(n);
    var m: nat := if n < 0 then -n else n;
    var ds := ShowNat(m);
    SplitMantissaOfDigits(ds);
    DigitsValueOfShowNat(m);
    assert ds + "" == ds;
    assert Exponent("") == Ok(0);
    assert Scale(m as real, 0) == m as real;
  }

  lemma SplitMantissaOfDigits(ds: string)
    requires AllDigits(ds)
    ensures SplitMantissa(ds) == (ds, "", "")
  {
    DigitRunOfDigits(ds, "");
    assert ds + "" == ds;
    assert ds[..|ds|] == ds;
  }

  /** The value of the decimal `w.f`: `w + f / 10^|f|`. */
  function DecimalValueOf(whole: nat, fraction: string): real
    requires AllDigits(fraction)
  {
    whole as real + DigitsValue(fraction) as real / Pow10(|fraction|) as real
  }

  /** `w.f` with a fractional digit string `f` parses as `w + f / 10^|f|`. */
  lemma ParseDoubleOfDecimal(w: nat, fraction: string)
    requires AllDigits(fraction)
    ensures ParseDouble(ShowNat(w) + "." + fraction) == Ok(DecimalValueOf(w, fraction))
  {
    ParseDoubleOfPointed(ShowNat(w), fraction);
    DecimalValue(w, fraction);
  }

  lemma DecimalValue(w: nat, fraction: string)
    requires AllDigits(fraction)
    ensures AllDigits(ShowNat(w) + fraction)
    ensures DigitsValue(ShowNat(w) + fraction) as real / Pow10(|fraction|) as real
         == DecimalValueOf(w, fraction)
  {
    var ds := ShowNat(w);
    DigitsValueAppend(ds, fraction);
    DigitsValueOfShowNat(w);
    ShiftDivide(w, DigitsValue(fraction), Pow10(|fraction|), DigitsValue(ds + fraction));
  }

  lemma ShiftDivide(w: nat, d: nat, p: nat, v: nat)
    requires p > 0 && v == w * p + d
    ensures v as real / p as real == w as real + d as real / p as real
  {
    var a, b, q := w as real, d as real, p as real;
    assert (w * p) as real == a * q;
    assert v as real == a * q + b;
    assert (a * q + b) / q == a * q / q + b / q;
  }

  /** Digits, a point and digits parse as the concatenated digits scaled down. */
  lemma ParseDoubleOfPointed(ds: string, fraction: string)
    requires |ds| > 0 && AllDigits(ds) && AllDigits(fraction)
    ensures AllDigits(ds + fraction)
    ensures ParseDouble(ds + "." + fraction)
         == Ok(DigitsValue(ds + fraction) as real / Pow10(|fraction|) as real)
  {
    DigitsValueAppend(ds, fraction);
    var s := ds + "." + fraction;
    TrimStartOfUnpadded(s);
    TrimEndOfDecimal(ds, fraction);
    assert SplitSign(Trim(s)) == (false, s);
    SplitMantissaOfDecimal(ds, fraction);
    var v := DigitsValue(ds + fraction) as real;
    assert Exponent("") == Ok(0);
    ScaleDown(v, |fraction|);
  }

  lemma ScaleDown(x: real, n: nat)
    ensures Scale(x, 0 - n) == x / Pow10(n) as real
  {
    if n == 0 {
      assert Pow10(0) as real == 1.0;
    }
  }

  lemma SplitMantissaOfDecimal(ds: string, fraction: string)
    requires AllDigits(ds) && AllDigits(fraction)
    ensures SplitMantissa(ds + "." + fraction) == (ds, fraction, "")
  {
    var s := ds + "." + fraction;
    assert s == ds + ("." + fraction);
    DigitRunOfDigits(ds, "." + fraction);
    assert s[..|ds|] == ds;
    var afterWhole := s[|ds|..];
    assert afterWhole == "." + fraction;
    assert afterWhole[1..] == fraction + "";
    DigitRunOfDigits(fraction, "");
  }

  lemma TrimStartOfUnpadded(s: string)
    requires |s| > 0 && !IsWhite(s[0])
    ensures TrimStart(s) == s
  {
  }

  lemma TrimEndOfDecimal(ds: string, fraction: string)
    requires |ds| > 0 && AllDigits(ds) && AllDigits(fraction)
    ensures TrimEnd(ds + "." + fraction) == ds + "." + fraction
  {
    var s := ds + "." + fraction;
    assert !IsWhite(s[|s| - 1]) by {
      if |fraction| > 0 {
        assert s[|s| - 1] == fraction[|fraction| - 1];
      }
    }
  }
}
