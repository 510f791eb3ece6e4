/**
 * One sensor sample and the parser for its wire form `"<int>,<double>"`.
 */
module Readings {
  import opened Failures
  import opened Text
  import opened NumberParsing
  import Int32

  datatype Reading = Reading(magnitude: int, peakFreq: real)

  /**
   * `ParseReading`: split the line at every comma, `int.Parse` the first
   * piece, then `double.Parse` the second.  The first piece is parsed before
   * the second is looked up, so a bad magnitude is reported even when the
   * comma is missing; pieces after the second are ignored.
   */
  function ParseReading(line: string): (r: Result<Reading>)
    ensures r.Ok? ==> Int32.InRange(r.value.magnitude)
  {
    var fields := Split(line, ',');
    match ParseInt32(fields[0])
    case Err(e) => Err(e)
    case Ok(magnitude) =>
      if |fields| < 2 then Err(IndexOutOfRange)
      else
        match ParseDouble(fields[1])
        case Err(e) => Err(e)
        case Ok(peak) => Ok(Reading(magnitude, peak))
  }

  /**
   * A line written as `magnitude,peak` (any further comma-separated pieces
   * ignored) parses back to the pair, for every 32-bit magnitude and every
   * integral peak.
   */
  lemma ParseReadingOfFormatted(magnitude: int, peak: int, extra: seq<string>)
    requires Int32.InRange(magnitude)
    requires forall i :: 0 <= i < |extra| ==> ',' !in extra[i]
    ensures ParseReading(Join([ShowInt(magnitude), ShowInt(peak)] + extra, ','))
         == Ok(Reading(magnitude, peak as real))
  {
    var line := Join([ShowInt(magnitude), ShowInt(peak)] + extra, ',');
    SplitOfFormatted(magnitude, peak, extra);
    ParseInt32OfShowInt(magnitude);
    ParseDoubleOfShowInt(peak);
  }

  /**
   * A line written as `magnitude,w.f` (any further comma-separated pieces
   * ignored) parses back to the magnitude and the fractional peak
   * `w + f / 10^|f|`, for every 32-bit magnitude.
   */
  lemma ParseReadingOfDecimal(magnitude: int, whole: nat, fraction: string, extra: seq<string>)
    requires Int32.InRange(magnitude) && AllDigits(fraction)
    requires forall i :: 0 <= i < |extra| ==> ',' !in extra[i]
    ensures ParseReading(Join([ShowInt(magnitude), ShowNat(whole) + "." + fraction] + extra, ','))
         == Ok(Reading(magnitude, DecimalValueOf(whole, fraction)))
  {
    NoCommaInShowInt(magnitude);
    NoCommaInDecimal(whole, fraction);
    ParseInt32OfShowInt(magnitude);
    ParseDoubleOfDecimal(whole, fraction);
    ParseReadingOfFields(ShowInt(magnitude), ShowNat(whole) + "." + fraction, extra, magnitude,
                         DecimalValueOf(whole, fraction));
  }

  /** Comma-free fields that parse on their own parse the same inside a line. */
  lemma ParseReadingOfFields(first: string, second: string, extra: seq<string>, magnitude: int, peak: real)
    requires ',' !in first && ',' !in second
    requires forall i :: 0 <= i < |extra| ==> ',' !in extra[i]
    requires ParseInt32(first) == Ok(magnitude) && ParseDouble(second) == Ok(peak)
    ensures ParseReading(Join([first, second] + extra, ',')) == Ok(Reading(magnitude, peak))
  {
    SplitOfFields(first, second, extra);
  }

  lemma SplitOfFormatted(magnitude: int, peak: int, extra: seq<string>)
    requires forall i :: 0 <= i < |extra| ==> ',' !in extra[i]
    ensures var fields := Split(Join([ShowInt(magnitude), ShowInt(peak)] + extra, ','), ',');
      |fields| >= 2 && fields[0] == ShowInt(magnitude) && fields[1] == ShowInt(peak)
  {
    NoCommaInShowInt(magnitude);
    NoCommaInShowInt(peak);
    SplitOfFields(ShowInt(magnitude), ShowInt(peak), extra);
  }

  /** Comma-free fields joined with commas split back into the same fields. */
  lemma SplitOfFields(first: string, second: string, extra: seq<string>)
    requires ',' !in first && ',' !in second
    requires forall i :: 0 <= i < |extra| ==> ',' !in extra[i]
    ensures var fields := Split(Join([first, second] + extra, ','), ',');
      |fields| >= 2 && fields[0] == first && fields[1] == second
  {
    var parts := [first, second] + extra;
    forall i | 0 <= i < |parts| ensures ',' !in parts[i] {
      if i == 0 {
        assert parts[i] == first;
      } else if i == 1 {
        assert parts[i] == second;
      } else {
        assert parts[i] == extra[i - 2];
      }
    }
    SplitJoin(parts, ',');
  }

  lemma NoCommaInDecimal(whole: nat, fraction: string)
    requires AllDigits(fraction)
    ensures ',' !in ShowNat(whole) + "." + fraction
  {
    var ds := ShowNat(whole);
    var s := ds + "." + fraction;
    forall i | 0 <= i < |s| ensures s[i] != ',' {
      if i < |ds| {
        assert s[i] == ds[i] && IsDigit(ds[i]);
      } else if i > |ds| {
        assert s[i] == fraction[i - |ds| - 1] && IsDigit(fraction[i - |ds| - 1]);
      }
    }
  }

  /**
   * The second field is missing exactly when the line has no comma, and that
   * is reported only once the whole line has parsed as the magnitude.
   */
  lemma ParseReadingMissingField(line: string)
    ensures ParseReading(line) == Err(IndexOutOfRange) <==> ',' !in line && ParseInt32(line).Ok?
    ensures ParseReading(line).Ok? ==> ',' in line
  {
    var fields := Split(line, ',');
    if ',' in line {
      assert |fields| >= 2;
      if ParseInt32(fields[0]).Ok? {
        assert ParseDouble(fields[1]) != Err(IndexOutOfRange) by {
          var (negative, body) := SplitSign(Trim(fields[1]));
          var (whole, fraction, rest) := SplitMantissa(body);
          if |whole| + |fraction| > 0 {
            assert Exponent(rest) != Err(IndexOutOfRange);
          }
        }
      }
    } else {
      assert fields == [line];
    }
  }

  /** A magnitude outside 32 bits is an OverflowError whatever follows it. */
  lemma ParseReadingOverflow(magnitude: int, rest: string)
    requires !Int32.InRange(magnitude)
    ensures ParseReading(ShowInt(magnitude) + "," + rest) == Err(OverflowError)
  {
    var line := ShowInt(magnitude) + "," + rest;
    NoCommaInShowInt(magnitude);
    assert line[|ShowInt(magnitude)|] == ',';
    assert IndexOf(line, ',') == |ShowInt(magnitude)|;
    assert line[..|ShowInt(magnitude)|] == ShowInt(magnitude);
    ParseInt32OfShowInt(magnitude);
  }

  lemma NoCommaInShowInt(n: int)
    ensures ',' !in ShowInt(n)
  {
    var s := ShowInt(n);
    forall i | 0 <= i < |s| ensures s[i] != ',' {
      if n >= 0 || i > 0 {
        assert IsDigit(s[i]) by {
          if n < 0 {
            assert s[i] == ShowNat(-n)[i - 1];
          }
        }
      }
    }
  }
}
