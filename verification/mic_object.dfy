/**
 * The smoother as the C# class keeps it: two arrays updated in place, two
 * running totals and a write index, with the fill loop of the constructor and
 * the `while` wrap-around of `Read`.  Each operation is proved to have the
 * effect the functional model in `MicModel` gives it.
 */
module MicObject {
  import opened Failures
  import opened Readings
  import opened Ring
  import MicModel
  import Int32

  class MicData {
    var magnitudes: array<int>
    var peakFreqs: array<real>
    var magnitudeTotal: int
    var freqTotal: real
    var readingCount: int
    var index: int

    /** The object's fields as a value of the functional model. */
    function Model(): MicModel.MicData
      reads this, magnitudes, peakFreqs
    {
      MicModel.MicData(magnitudes[..], peakFreqs[..], magnitudeTotal, freqTotal, readingCount, index)
    }

    predicate Valid()
      reads this, magnitudes, peakFreqs
    {
      MicModel.Valid(Model())
    }

    /**
     * The allocation and fill of the constructor, once the count is known to
     * be non-negative and the initial line has parsed.
     */
    constructor Seed(readingCount: nat, first: Reading)
      requires Int32.InRange(first.magnitude)
      ensures Valid()
      ensures Model() == MicModel.Seeded(readingCount, first)
      ensures fresh(magnitudes) && fresh(peakFreqs)
    {
      var mags := new int[readingCount];
      var peaks := new real[readingCount];
      for i := 0 to readingCount
        invariant forall j :: 0 <= j < i ==> mags[j] == first.magnitude
        invariant forall j :: 0 <= j < i ==> peaks[j] == first.peakFreq
      {
        mags[i] := first.magnitude;
        peaks[i] := first.peakFreq;
      }
      this.readingCount := readingCount;
      index := 0;
      magnitudes := mags;
      peakFreqs := peaks;
      magnitudeTotal := Int32.Wrap(first.magnitude * readingCount);
      freqTotal := first.peakFreq * readingCount as real;
      new;
      assert magnitudes[..] == Repeat(first.magnitude, readingCount);
      assert peakFreqs[..] == Repeat(first.peakFreq, readingCount);
      assert Model() == MicModel.Seeded(readingCount, first);
    }

    /**
     * `new MicData(readingCount, initialReading)`, with the exceptions it can
     * throw returned as errors: a negative count fails at the array
     * allocation, before the initial line is parsed.
     */
    static method Create(readingCount: int, initialReading: string) returns (r: Result<MicData>)
      ensures MicModel.New(readingCount, initialReading).Err? ==>
                r == Err(MicModel.New(readingCount, initialReading).error)
      ensures MicModel.New(readingCount, initialReading).Ok? ==>
                && r.Ok? && fresh(r.value) && fresh(r.value.magnitudes) && fresh(r.value.peakFreqs)
                && r.value.Valid()
                && r.value.Model() == MicModel.New(readingCount, initialReading).value
    {
      if readingCount < 0 {
        return Err(OverflowError);
      }
      var parsed := ParseReading(initialReading);
      if parsed.Err? {
        return Err(parsed.error);
      }
      var m := new MicData.Seed(readingCount, parsed.value);
      return Ok(m);
    }

    /**
     * `Read(reading)`: on success the object moves to the state the model's
     * `Read` gives; on a failure nothing has been written.
     */
    method Read(reading: string) returns (r: Result<()>)
      requires Valid()
      modifies this, magnitudes, peakFreqs
      ensures Valid()
      ensures magnitudes == old(magnitudes) && peakFreqs == old(peakFreqs)
      ensures match MicModel.Read(old(Model()), reading)
        case Ok(next) => r == Ok(()) && Model() == next
        case Err(e) => r == Err(e) && Model() == old(Model())
    {
      var parsed := ParseReading(reading);
      if parsed.Err? {
        return Err(parsed.error);
      }
      if index >= magnitudes.Length {
        // `magnitudes[index]` on an empty buffer
        return Err(IndexOutOfRange);
      }
      Push(parsed.value);
      return Ok(());
    }

    /** The in-place update of `Read` once its line has parsed. */
    method Push(x: Reading)
      requires Valid() && readingCount > 0 && Int32.InRange(x.magnitude)
      modifies this, magnitudes, peakFreqs
      ensures Valid()
      ensures magnitudes == old(magnitudes) && peakFreqs == old(peakFreqs)
      ensures Model() == MicModel.Push(old(Model()), x)
    {
      ghost var before := Model();
      magnitudeTotal := Int32.Wrap(magnitudeTotal - magnitudes[index]);
      freqTotal := freqTotal - peakFreqs[index];
      magnitudes[index] := x.magnitude;
      peakFreqs[index] := x.peakFreq;
      magnitudeTotal := Int32.Wrap(magnitudeTotal + x.magnitude);
      freqTotal := freqTotal + x.peakFreq;
      var next := index + 1;
      while next >= readingCount
        invariant 0 <= next
        invariant WrapDown(next, readingCount) == WrapDown(before.index + 1, readingCount)
        decreases next
      {
        next := next - readingCount;
      }
      index := next;
      assert magnitudes[..] == before.magnitudes[before.index := x.magnitude];
      assert peakFreqs[..] == before.peakFreqs[before.index := x.peakFreq];
      assert Model() == MicModel.Push(before, x);
    }

    /** `Magnitude`: a read of the fields that changes nothing. */
    function Magnitude(): (q: MicModel.Quotient)
      requires Valid()
      reads this, magnitudes, peakFreqs
      ensures q == MicModel.Magnitude(Model())
    {
      if readingCount == 0 then MicModel.NaN else MicModel.Finite(magnitudeTotal as real / readingCount as real)
    }

    /** `PeakFreq`: a read of the fields that changes nothing. */
    function PeakFreq(): (q: MicModel.Quotient)
      requires Valid()
      reads this, magnitudes, peakFreqs
      ensures q == MicModel.PeakFreq(Model())
    {
      if readingCount == 0 then MicModel.NaN else MicModel.Finite(freqTotal / readingCount as real)
    }
  }
}
