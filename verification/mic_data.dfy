/**
 * The microphone-reading smoother (`SceneMgrScript.MicData`): a fixed window
 * of `readingCount` samples kept in two parallel circular buffers, with
 * running totals that are updated by subtract-old/add-new on every read so
 * that the averages are O(1).
 *
 * The magnitude channel is exact, including the wrap-around of its unchecked
 * 32-bit running total.  The peak-frequency channel holds `double`s in the
 * source and is modelled with `real`, i.e. without rounding.
 */
module MicModel {
  import opened Failures
  import opened Readings
  import opened Ring
  import opened Sums
  import Int32
  import Text

  datatype MicData = MicData(
    magnitudes: seq<int>,
    peakFreqs: seq<real>,
    magnitudeTotal: int,
    freqTotal: real,
    readingCount: int,
    index: int)

  /**
   * The object invariant: both buffers have `readingCount` slots, the write
   * index is a slot (or 0 for an empty buffer), every magnitude is a 32-bit
   * value, and each running total is the (wrapped) sum of its buffer.
   */
  predicate Valid(s: MicData) {
    && s.readingCount >= 0
    && |s.magnitudes| == s.readingCount
    && |s.peakFreqs| == s.readingCount
    && (if s.readingCount == 0 then s.index == 0 else 0 <= s.index < s.readingCount)
    && (forall i :: 0 <= i < |s.magnitudes| ==> Int32.InRange(s.magnitudes[i]))
    && s.magnitudeTotal == Int32.Wrap(SumInt(s.magnitudes))
    && s.freqTotal == SumReal(s.peakFreqs)
  }

  /**
   * The constructor.  A negative count fails when the arrays are allocated,
   * before the initial line is parsed; otherwise every slot is seeded with the
   * parsed initial reading and the totals with `readingCount` times it.
   */
  function New(readingCount: int, initialReading: string): (r: Result<MicData>)
    ensures readingCount < 0 ==> r == Err(OverflowError)
    ensures readingCount >= 0 ==> match ParseReading(initialReading)
      case Err(e) => r == Err(e)
      case Ok(first) => r.Ok? && r.value == Seeded(readingCount, first)
  {
    if readingCount < 0 then Err(OverflowError)
    else match ParseReading(initialReading)
      case Err(e) => Err(e)
      case Ok(first) => Ok(Seeded(readingCount, first))
  }

  /**
   * The state the constructor builds from its parsed initial reading: every
   * slot holds it, the index is 0, and the totals are the count times it,
   * which is the sum of the seeded buffer.
   */
  function Seeded(readingCount: nat, first: Reading): (r: MicData)
    requires Int32.InRange(first.magnitude)
    ensures Valid(r)
    ensures r.readingCount == readingCount && r.index == 0
    ensures forall i :: 0 <= i < readingCount ==> r.magnitudes[i] == first.magnitude
    ensures forall i :: 0 <= i < readingCount ==> r.peakFreqs[i] == first.peakFreq
  {
    SumIntRepeat(first.magnitude, readingCount);
    SumRealRepeat(first.peakFreq, readingCount);
    MicData(
      Repeat(first.magnitude, readingCount),
      Repeat(first.peakFreq, readingCount),
      Int32.Wrap(first.magnitude * readingCount),
      first.peakFreq * readingCount as real,
      readingCount,
      0)
  }

  /**
   * The state change of `Read` once its line has been parsed: the slot at the
   * write index is replaced, the totals follow, and the index moves on by one
   * with wrap-around.
   */
  function Push(s: MicData, reading: Reading): (r: MicData)
    requires Valid(s) && s.readingCount > 0
    requires Int32.InRange(reading.magnitude)
    ensures Valid(r)
    ensures r.readingCount == s.readingCount
    ensures r.magnitudes[s.index] == reading.magnitude
    ensures r.peakFreqs[s.index] == reading.peakFreq
    ensures forall i :: 0 <= i < s.readingCount && i != s.index ==>
              r.magnitudes[i] == s.magnitudes[i] && r.peakFreqs[i] == s.peakFreqs[i]
    ensures r.index == if s.index + 1 < s.readingCount then s.index + 1 else 0
  {
    var i := s.index;
    var magnitudeTotal := Int32.Wrap(Int32.Wrap(s.magnitudeTotal - s.magnitudes[i]) + reading.magnitude);
    var freqTotal := s.freqTotal - s.peakFreqs[i] + reading.peakFreq;
    SumIntUpdate(s.magnitudes, i, reading.magnitude);
    SumRealUpdate(s.peakFreqs, i, reading.peakFreq);
    Int32.WrapAdd(SumInt(s.magnitudes), -s.magnitudes[i]);
    Int32.WrapAdd(SumInt(s.magnitudes) - s.magnitudes[i], reading.magnitude);
    MicData(
      s.magnitudes[i := reading.magnitude],
      s.peakFreqs[i := reading.peakFreq],
      magnitudeTotal,
      freqTotal,
      s.readingCount,
      WrapDown(i + 1, s.readingCount))
  }

  /** The write index advances as `(index + 1) % readingCount`. */
  lemma PushAdvancesIndex(s: MicData, reading: Reading)
    requires Valid(s) && s.readingCount > 0
    requires Int32.InRange(reading.magnitude)
    ensures Push(s, reading).index == (s.index + 1) % s.readingCount
  {
    WrapDownIsMod(s.index + 1, s.readingCount);
  }

  /**
   * `Read(line)`: a line that does not parse fails first; on an empty buffer
   * the first array access fails; otherwise the parsed reading is pushed.
   * A failed read leaves the state as it was.
   */
  function Read(s: MicData, line: string): (r: Result<MicData>)
    requires Valid(s)
    ensures r.Ok? <==> ParseReading(line).Ok? && s.readingCount > 0
    ensures ParseReading(line).Err? ==> r == Err(ParseReading(line).error)
    ensures ParseReading(line).Ok? && s.readingCount == 0 ==> r == Err(IndexOutOfRange)
    ensures r.Ok? ==> Valid(r.value) && r.value.readingCount == s.readingCount
    ensures r.Ok? ==> r.value == Push(s, ParseReading(line).value)
  {
    match ParseReading(line)
    case Err(e) => Err(e)
    case Ok(reading) =>
      if s.readingCount == 0 then Err(IndexOutOfRange) else Ok(Push(s, reading))
  }

  /** A `double` quotient: a number, or NaN for 0/0. */
  datatype Quotient = Finite(value: real) | NaN

  /**
   * `Magnitude`: the running total as a double over the count.  With no slots
   * the total is 0, so the quotient is 0/0.
   */
  function Magnitude(s: MicData): (q: Quotient)
    requires Valid(s)
    ensures q.NaN? <==> s.readingCount == 0
    ensures q.Finite? ==> q.value * s.readingCount as real == Int32.Wrap(SumInt(s.magnitudes)) as real
  {
    if s.readingCount == 0 then NaN else Finite(s.magnitudeTotal as real / s.readingCount as real)
  }

  /** `PeakFreq`: the frequency total over the count. */
  function PeakFreq(s: MicData): (q: Quotient)
    requires Valid(s)
    ensures q.NaN? <==> s.readingCount == 0
    ensures q.Finite? ==> q.value * s.readingCount as real == SumReal(s.peakFreqs)
  {
    if s.readingCount == 0 then NaN else Finite(s.freqTotal / s.readingCount as real)
  }

  /** When the buffer's sum fits in 32 bits, `Magnitude` is the buffer's mean. */
  lemma MagnitudeIsMean(s: MicData)
    requires Valid(s) && s.readingCount > 0
    requires Int32.InRange(SumInt(s.magnitudes))
    ensures Magnitude(s) == Finite(SumInt(s.magnitudes) as real / s.readingCount as real)
  {
  }

  // ---------------------------------------------------------------------------
  // Sliding window: the buffers against the stream of readings written so far.
  // ---------------------------------------------------------------------------

  function MagnitudesOf(rs: seq<Reading>): (ms: seq<int>)
    ensures |ms| == |rs|
    ensures forall i :: 0 <= i < |rs| ==> ms[i] == rs[i].magnitude
  {
    seq(|rs|, i requires 0 <= i < |rs| => rs[i].magnitude)
  }

  function PeakFreqsOf(rs: seq<Reading>): (ps: seq<real>)
    ensures |ps| == |rs|
    ensures forall i :: 0 <= i < |rs| ==> ps[i] == rs[i].peakFreq
  {
    seq(|rs|, i requires 0 <= i < |rs| => rs[i].peakFreq)
  }

  predicate AllInRange(rs: seq<Reading>) {
    forall i :: 0 <= i < |rs| ==> Int32.InRange(rs[i].magnitude)
  }

  /**
   * `s` holds the window of the stream `all` (the seeded copies followed by
   * every reading pushed since): read from the write index round, the buffers
   * are the last `readingCount` readings, oldest first.
   */
  ghost predicate HoldsWindow(s: MicData, all: seq<Reading>) {
    && Valid(s)
    && s.readingCount > 0
    && |all| >= s.readingCount
    && Rotate(s.magnitudes, s.index) == MagnitudesOf(Latest(all, s.readingCount))
    && Rotate(s.peakFreqs, s.index) == PeakFreqsOf(Latest(all, s.readingCount))
  }

  /** A fresh smoother holds `readingCount` copies of its initial reading. */
  lemma NewHoldsWindow(readingCount: int, initialReading: string)
    requires readingCount > 0 && ParseReading(initialReading).Ok?
    ensures New(readingCount, initialReading).Ok?
    ensures HoldsWindow(New(readingCount, initialReading).value,
                        Repeat(ParseReading(initialReading).value, readingCount))
  {
    var first := ParseReading(initialReading).value;
    var s := Seeded(readingCount, first);
    var seed := Repeat(first, readingCount);
    assert Latest(seed, readingCount) == seed;
    assert MagnitudesOf(seed) == s.magnitudes;
    assert PeakFreqsOf(seed) == s.peakFreqs;
    assert Rotate(s.magnitudes, 0) == s.magnitudes;
    assert Rotate(s.peakFreqs, 0) == s.peakFreqs;
  }

  /** Each push slides the window by one reading. */
  lemma PushKeepsWindow(s: MicData, all: seq<Reading>, reading: Reading)
    requires HoldsWindow(s, all)
    requires Int32.InRange(reading.magnitude)
    ensures HoldsWindow(Push(s, reading), all + [reading])
  {
    var n := s.readingCount;
    LatestAfterAppend(all, n, reading);
    PushSlidesMagnitudes(s, Latest(all, n), reading);
    PushSlidesPeakFreqs(s, Latest(all, n), reading);
  }

  lemma PushSlidesMagnitudes(s: MicData, w: seq<Reading>, reading: Reading)
    requires Valid(s) && s.readingCount > 0 && Int32.InRange(reading.magnitude)
    requires Rotate(s.magnitudes, s.index) == MagnitudesOf(w)
    ensures var s' := Push(s, reading);
            Rotate(s'.magnitudes, s'.index) == MagnitudesOf(w[1..] + [reading])
  {
    SlideMagnitudes(s.magnitudes, s.index, w, reading);
  }

  lemma PushSlidesPeakFreqs(s: MicData, w: seq<Reading>, reading: Reading)
    requires Valid(s) && s.readingCount > 0 && Int32.InRange(reading.magnitude)
    requires Rotate(s.peakFreqs, s.index) == PeakFreqsOf(w)
    ensures var s' := Push(s, reading);
            Rotate(s'.peakFreqs, s'.index) == PeakFreqsOf(w[1..] + [reading])
  {
    SlidePeakFreqs(s.peakFreqs, s.index, w, reading);
  }

  lemma SlideMagnitudes(b: seq<int>, start: int, w: seq<Reading>, reading: Reading)
    requires 0 <= start < |b|
    requires Rotate(b, start) == MagnitudesOf(w)
    ensures Rotate(b[start := reading.magnitude], WrapDown(start + 1, |b|))
         == MagnitudesOf(w[1..] + [reading])
  {
    RotateAfterWrite(b, start, reading.magnitude);
    assert MagnitudesOf(w[1..] + [reading]) == MagnitudesOf(w)[1..] + [reading.magnitude];
  }

  lemma SlidePeakFreqs(b: seq<real>, start: int, w: seq<Reading>, reading: Reading)
    requires 0 <= start < |b|
    requires Rotate(b, start) == PeakFreqsOf(w)
    ensures Rotate(b[start := reading.peakFreq], WrapDown(start + 1, |b|))
         == PeakFreqsOf(w[1..] + [reading])
  {
    RotateAfterWrite(b, start, reading.peakFreq);
    assert PeakFreqsOf(w[1..] + [reading]) == PeakFreqsOf(w)[1..] + [reading.peakFreq];
  }

  /** Pushing a sequence of readings, in order. */
  function Feed(s: MicData, rs: seq<Reading>): (r: MicData)
    requires Valid(s) && s.readingCount > 0 && AllInRange(rs)
    ensures Valid(r) && r.readingCount == s.readingCount
    decreases |rs|
  {
    if |rs| == 0 then s else Feed(Push(s, rs[0]), rs[1..])
  }

  lemma {:induction false} FeedKeepsWindow(s: MicData, all: seq<Reading>, rs: seq<Reading>)
    requires HoldsWindow(s, all) && AllInRange(rs)
    ensures HoldsWindow(Feed(s, rs), all + rs)
    decreases |rs|
  {
    if |rs| == 0 {
      assert all + rs == all;
    } else {
      PushKeepsWindow(s, all, rs[0]);
      assert all + rs == (all + [rs[0]]) + rs[1..];
      FeedKeepsWindow(Push(s, rs[0]), all + [rs[0]], rs[1..]);
    }
  }

  /** Parsing a sequence of lines, stopping at the first failure. */
  function ParseAll(lines: seq<string>): (r: Result<seq<Reading>>)
    ensures r.Ok? ==> |r.value| == |lines| && AllInRange(r.value)
  {
    if |lines| == 0 then Ok([])
    else match ParseReading(lines[0])
      case Err(e) => Err(e)
      case Ok(first) =>
        match ParseAll(lines[1..])
        case Err(e) => Err(e)
        case Ok(rest) => Ok([first] + rest)
  }

  /** Calling `Read` on each line in order, stopping at the first failure. */
  function ReadAll(s: MicData, lines: seq<string>): (r: Result<MicData>)
    requires Valid(s)
    ensures r.Ok? ==> Valid(r.value) && r.value.readingCount == s.readingCount
    decreases |lines|
  {
    if |lines| == 0 then Ok(s)
    else match Read(s, lines[0])
      case Err(e) => Err(e)
      case Ok(s') => ReadAll(s', lines[1..])
  }

  /**
   * On a non-empty buffer, a run of reads succeeds exactly when every line
   * parses, and it then pushes the parsed readings in order.
   */
  lemma {:induction false} ReadAllIsFeed(s: MicData, lines: seq<string>)
    requires Valid(s) && s.readingCount > 0
    ensures ReadAll(s, lines).Ok? <==> ParseAll(lines).Ok?
    ensures ReadAll(s, lines).Ok? ==> ReadAll(s, lines).value == Feed(s, ParseAll(lines).value)
    decreases |lines|
  {
    if |lines| > 0 && ParseReading(lines[0]).Ok? {
      var s' := Push(s, ParseReading(lines[0]).value);
      ReadAllIsFeed(s', lines[1..]);
      if ParseAll(lines).Ok? {
        var rs := ParseAll(lines).value;
        assert rs[0] == ParseReading(lines[0]).value;
        assert rs[1..] == ParseAll(lines[1..]).value;
      }
    }
  }

  /** The buffers read from the write index round, as readings, oldest first. */
  function Contents(s: MicData): (rs: seq<Reading>)
    requires Valid(s)
    ensures |rs| == s.readingCount
  {
    var ms := Rotate(s.magnitudes, s.index);
    var ps := Rotate(s.peakFreqs, s.index);
    seq(s.readingCount, i requires 0 <= i < s.readingCount => Reading(ms[i], ps[i]))
  }

  /** Every valid state holds the window of its own contents. */
  lemma HoldsContents(s: MicData)
    requires Valid(s) && s.readingCount > 0
    ensures HoldsWindow(s, Contents(s))
  {
    var all := Contents(s);
    assert Latest(all, s.readingCount) == all;
    assert MagnitudesOf(all) == Rotate(s.magnitudes, s.index);
    assert PeakFreqsOf(all) == Rotate(s.peakFreqs, s.index);
  }

  /** Every line of `lines` is a well-formed reading. */
  predicate AllParse(lines: seq<string>) {
    forall i :: 0 <= i < |lines| ==> ParseReading(lines[i]).Ok?
  }

  /** `ParseAll` succeeds exactly when every line parses, and parses each line on its own. */
  lemma {:induction false} ParseAllIsEach(lines: seq<string>)
    ensures ParseAll(lines).Ok? <==> AllParse(lines)
    ensures ParseAll(lines).Ok? ==>
              forall i :: 0 <= i < |lines| ==> ParseAll(lines).value[i] == ParseReading(lines[i]).value
    decreases |lines|
  {
    if |lines| > 0 {
      ParseAllIsEach(lines[1..]);
      assert forall i :: 1 <= i < |lines| ==> lines[1..][i - 1] == lines[i];
    }
  }

  /**
   * The sliding window on parsed readings.  From any state, after at least
   * `readingCount` pushes the buffers are exactly the last `readingCount`
   * readings (oldest at the write index), `PeakFreq` is their mean, and
   * `Magnitude` is their mean whenever their sum fits in 32 bits (otherwise
   * it is the wrapped sum over the count).
   */
  lemma WindowAfterFeed(s: MicData, rs: seq<Reading>)
    requires Valid(s) && s.readingCount > 0
    requires AllInRange(rs) && |rs| >= s.readingCount
    ensures var s' := Feed(s, rs);
            var n := s.readingCount;
            var last := Latest(rs, n);
            && Rotate(s'.magnitudes, s'.index) == MagnitudesOf(last)
            && Rotate(s'.peakFreqs, s'.index) == PeakFreqsOf(last)
            && Magnitude(s') == Finite(Int32.Wrap(SumInt(MagnitudesOf(last))) as real / n as real)
            && (Int32.InRange(SumInt(MagnitudesOf(last))) ==>
                  Magnitude(s') == Finite(SumInt(MagnitudesOf(last)) as real / n as real))
            && PeakFreq(s') == Finite(SumReal(PeakFreqsOf(last)) / n as real)
  {
    HoldsContents(s);
    FeedKeepsWindow(s, Contents(s), rs);
    LatestOfSuffix(Contents(s), rs, s.readingCount);
    var s' := Feed(s, rs);
    SumIntRotate(s'.magnitudes, s'.index);
    SumRealRotate(s'.peakFreqs, s'.index);
  }

  /**
   * The sliding-window property on the lines `Read` is given: a run of at
   * least `readingCount` well-formed lines is read without error and leaves
   * the window of the last `readingCount` of them.
   */
  lemma SlidingWindow(s: MicData, lines: seq<string>)
    requires Valid(s) && s.readingCount > 0
    requires AllParse(lines) && |lines| >= s.readingCount
    ensures ParseAll(lines).Ok? && ReadAll(s, lines).Ok?
    ensures var s' := ReadAll(s, lines).value;
            var n := s.readingCount;
            var last := Latest(ParseAll(lines).value, n);
            && Rotate(s'.magnitudes, s'.index) == MagnitudesOf(last)
            && Rotate(s'.peakFreqs, s'.index) == PeakFreqsOf(last)
            && Magnitude(s') == Finite(Int32.Wrap(SumInt(MagnitudesOf(last))) as real / n as real)
            && (Int32.InRange(SumInt(MagnitudesOf(last))) ==>
                  Magnitude(s') == Finite(SumInt(MagnitudesOf(last)) as real / n as real))
            && PeakFreq(s') == Finite(SumReal(PeakFreqsOf(last)) / n as real)
  {
    ParseAllIsEach(lines);
    ReadAllIsFeed(s, lines);
    WindowAfterFeed(s, ParseAll(lines).value);
  }

  /**
   * A window of 4 seeded with "10,100" then fed "50,200" averages
   * (3 * 10 + 50) / 4 = 20 and (3 * 100 + 200) / 4 = 125.
   */
  lemma WindowOfFourExample()
    ensures New(4, "10,100").Ok?
    ensures var s := Read(New(4, "10,100").value, "50,200");
            && s.Ok?
            && Magnitude(s.value) == Finite(20.0)
            && PeakFreq(s.value) == Finite(125.0)
  {
    ExampleFirstLine();
    ExampleNextLine();
    ExampleAverages();
  }

  lemma ExampleFirstLine()
    ensures ParseReading("10,100") == Ok(Reading(10, 100.0))
  {
    assert Text.ShowInt(10) == "10" && Text.ShowInt(100) == "100";
    assert "10" + "," + "100" == "10,100";
    ExampleLine(10, 100);
  }

  lemma ExampleNextLine()
    ensures ParseReading("50,200") == Ok(Reading(50, 200.0))
  {
    assert Text.ShowInt(50) == "50" && Text.ShowInt(200) == "200";
    assert "50" + "," + "200" == "50,200";
    ExampleLine(50, 200);
  }

  lemma ExampleLine(magnitude: nat, peak: nat)
    requires Int32.InRange(magnitude)
    ensures ParseReading(Text.ShowInt(magnitude) + "," + Text.ShowInt(peak))
         == Ok(Reading(magnitude, peak as real))
  {
    ParseReadingOfFormatted(magnitude, peak, []);
    assert [Text.ShowInt(magnitude), Text.ShowInt(peak)] + [] == [Text.ShowInt(magnitude), Text.ShowInt(peak)];
  }

  lemma ExampleAverages()
    ensures var s := Push(Seeded(4, Reading(10, 100.0)), Reading(50, 200.0));
            Magnitude(s) == Finite(20.0) && PeakFreq(s) == Finite(125.0)
  {
    var s0 := Seeded(4, Reading(10, 100.0));
    assert s0.magnitudes == [10, 10, 10, 10];
    assert s0.peakFreqs == [100.0, 100.0, 100.0, 100.0];
    var s1 := Push(s0, Reading(50, 200.0));
    assert s1.magnitudes == [50, 10, 10, 10];
    assert s1.peakFreqs == [200.0, 100.0, 100.0, 100.0];
    assert s1.magnitudeTotal == 80;
    assert s1.freqTotal == 500.0;
  }
}
