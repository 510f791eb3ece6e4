# Sing-pong microphone smoother, in Dafny

The game's scene manager reads one line per frame from a microcontroller
over a serial port. Each line has the form `"<magnitude>,<peak frequency>"`.
The nested class `MicData` in `SingPongUnity/Assets/Scripts/SceneMgrScript.cs`
smooths these readings with a fixed window of `readingCount` samples. It keeps
two parallel circular buffers (`magnitudes` as `int`, `peakFreqs` as
`double`), a running total for each, and a write `index`. `Read` subtracts
the oldest slot from the totals, overwrites it, adds the new value, and
advances the index with a `while` wrap-around. `Magnitude` and `PeakFreq`
are the totals divided by the count.

This project models that class and proves the following:

- Each running total always equals the sum of its buffer. For the `int`
  total this holds modulo 2^32, because C# `int` arithmetic wraps.
- The index stays in range and advances as `(index + 1) % readingCount`.
- A read writes exactly one slot.
- After at least `readingCount` reads, the buffers hold exactly the last
  `readingCount` readings. `PeakFreq` is then their mean. `Magnitude` is
  their mean when their sum fits in 32 bits.

It also models the parser for reading lines (`string.Split`, `int.Parse`,
`double.Parse`). These exceptions are modelled:

- `FormatException` and `OverflowException` from the two parses;
- `IndexOutOfRangeException` for a missing second field or an empty window;
- `OverflowException` for a negative count.

"Left out" lists the ones that are not: a null line, running out of memory
for a large count, and `double.Parse` overflow on older runtimes.

Files (one module each):

- `int32.dfy` (`Int32`): unchecked 32-bit `int` arithmetic (`Wrap`).
- `failures.dfy` (`Failures`): the exceptions, as `Error`, and `Result<T>`.
- `text.dfy` (`Text`): digits, white space, trimming, `Split`/`Join`, and
  decimal rendering `ShowInt`.
- `number_parsing.dfy` (`NumberParsing`): `int.Parse` and `double.Parse`.
- `readings.dfy` (`Readings`): `Reading` and `ParseReading`.
- `ring.dfy` (`Ring`): the wrap loop `WrapDown`, plus `Rotate` and `Latest`
  for reading a circular buffer oldest-first.
- `sums.dfy` (`Sums`): buffer sums for the `int` and `real` channels.
- `mic_data.dfy` (`MicModel`): the class as an immutable value, with:
  - the operations `New`, `Read`, `Magnitude` and `PeakFreq`;
  - the invariant `Valid`;
  - the sliding-window theorem.
- `mic_object.dfy` (`MicObject`): the class as the source writes it. It uses
  arrays updated in place, the constructor's fill loop and the `while` wrap
  loop. Each of its methods is proved to have the effect `MicModel` gives the
  same operation.

How the model represents the source:

- C# exceptions become `Err` results. The order in which the code reaches
  them is kept:
  - A negative count fails at the array allocation (line 30), before the
    initial line is parsed (line 33).
  - In `ParseReading`, the first field is parsed (line 65) before the
    second field is looked up (line 66).
  - In `Read`, parsing (line 47) comes before the first array access
    (line 49).
- An empty window (`readingCount == 0`) is not rejected, because the source
  does not reject it. The constructor succeeds with empty arrays. `Read`
  fails with `IndexOutOfRange` at `magnitudes[index]` on line 49. Because
  that happens before the wrap loop on line 59, the loop is never reached
  with a count of 0. `Magnitude` and `PeakFreq` are then 0/0, which is NaN.

## Model

| member | source | states |
|---|---|---|
| Int32.Wrap | SingPongUnity/Assets/Scripts/SceneMgrScript.cs:41 | the value an unchecked `int` operation stores lies in the 32-bit range, agrees with the exact result modulo 2^32, and equals the exact result when that result is in range |
| Int32.WrapAdd | SingPongUnity/Assets/Scripts/SceneMgrScript.cs:49-55 | wrapping the total after the subtraction and again after the addition gives the same `int` as wrapping the exact `total - old + new` once |
| Text.Split | SingPongUnity/Assets/Scripts/SceneMgrScript.cs:64 | `Split(',')` yields at least one piece, no piece contains a comma, and joining the pieces with commas gives back the line |
| Text.SplitJoin | SingPongUnity/Assets/Scripts/SceneMgrScript.cs:64 | splitting a comma-join of comma-free pieces gives back exactly those pieces |
| NumberParsing.ParseInt32 | SingPongUnity/Assets/Scripts/SceneMgrScript.cs:65 | a magnitude accepted by `int.Parse` lies in the 32-bit range |
| NumberParsing.ParseInt32OfShowInt | SingPongUnity/Assets/Scripts/SceneMgrScript.cs:65 | every 32-bit integer written in decimal parses back to itself; a decimal integer outside 32 bits is an OverflowError, not a FormatError |
| NumberParsing.ParseDouble | SingPongUnity/Assets/Scripts/SceneMgrScript.cs:66 | `double.Parse` fails only with a FormatError; what it accepts is pinned down by its round-trip partners `NumberParsing.ParseDoubleOfShowInt` and `NumberParsing.ParseDoubleOfDecimal` |
| NumberParsing.ParseDoubleOfShowInt | SingPongUnity/Assets/Scripts/SceneMgrScript.cs:66 | a peak written as a decimal integer parses to exactly that value |
| NumberParsing.ParseDoubleOfDecimal | SingPongUnity/Assets/Scripts/SceneMgrScript.cs:66 | a peak written `w.f` parses to `w + f / 10^(number of digits of f)` |
| Readings.ParseReading | SingPongUnity/Assets/Scripts/SceneMgrScript.cs:62-68 | a parsed reading's magnitude is a 32-bit value |
| Readings.ParseReadingOfFormatted | SingPongUnity/Assets/Scripts/SceneMgrScript.cs:62-68 | a line `magnitude,peak` with an integral peak parses to that pair for every 32-bit magnitude, and any further comma-separated pieces are ignored |
| Readings.ParseReadingOfDecimal | SingPongUnity/Assets/Scripts/SceneMgrScript.cs:62-68 | a line `magnitude,w.f` with a fractional peak parses to the magnitude and `w + f / 10^(number of digits of f)` for every 32-bit magnitude, and any further comma-separated pieces are ignored |
| Readings.ParseReadingMissingField | SingPongUnity/Assets/Scripts/SceneMgrScript.cs:64-66 | the second field is reported missing (IndexOutOfRange) exactly when the line has no comma and the whole line parses as an `int`; a successful parse implies the line has a comma |
| Readings.ParseReadingOverflow | SingPongUnity/Assets/Scripts/SceneMgrScript.cs:65 | a magnitude outside 32 bits is an OverflowError, whatever follows the comma |
| Ring.WrapDown | SingPongUnity/Assets/Scripts/SceneMgrScript.cs:58-59 | the wrap loop ends below `readingCount`, leaves an index already below it unchanged, and never goes negative from a non-negative start |
| Ring.WrapDownIsMod | SingPongUnity/Assets/Scripts/SceneMgrScript.cs:58-59 | for a non-negative index the wrap loop computes `index % readingCount` |
| Ring.RotateAfterWrite | SingPongUnity/Assets/Scripts/SceneMgrScript.cs:52-59 | overwriting the slot at the index and advancing the index drops the oldest value of the oldest-first reading and appends the new one |
| Sums.SumIntUpdate | SingPongUnity/Assets/Scripts/SceneMgrScript.cs:49-55 | overwriting one slot changes the buffer's sum by the new value minus the old one, which is the subtract-old/add-new update |
| Sums.SumIntRepeat | SingPongUnity/Assets/Scripts/SceneMgrScript.cs:35-41 | a buffer of `n` copies of the initial magnitude sums to `initialMag * n`, the constructor's total |
| MicModel.New | SingPongUnity/Assets/Scripts/SceneMgrScript.cs:25-33 | a negative count fails with OverflowError before parsing; otherwise a parse error is passed on, and a parsed initial reading gives the seeded state |
| MicModel.Seeded | SingPongUnity/Assets/Scripts/SceneMgrScript.cs:28-42 | after construction every slot of both buffers holds the initial reading, `index == 0`, and the invariant holds, so `Wrap(initialMag * readingCount)` is the wrapped sum of `magnitudes` |
| MicModel.Push | SingPongUnity/Assets/Scripts/SceneMgrScript.cs:49-59 | a read keeps the invariant (totals equal the buffer sums), writes the new reading into the slot at the old index, leaves every other slot unchanged, and moves the index to the next slot, wrapping to 0 |
| MicModel.PushAdvancesIndex | SingPongUnity/Assets/Scripts/SceneMgrScript.cs:58-59 | the new index is `(index + 1) % readingCount` |
| MicModel.Read | SingPongUnity/Assets/Scripts/SceneMgrScript.cs:45-60 | a read succeeds exactly when the line parses and the window is non-empty; a parse error is reported first, an empty window gives IndexOutOfRange, and success is the push of the parsed reading |
| MicModel.Magnitude | SingPongUnity/Assets/Scripts/SceneMgrScript.cs:70 | the average is NaN exactly for an empty window; otherwise it times the count equals the wrapped sum of the magnitude buffer |
| MicModel.PeakFreq | SingPongUnity/Assets/Scripts/SceneMgrScript.cs:71 | the average is NaN exactly for an empty window; otherwise it times the count equals the sum of the frequency buffer |
| MicModel.MagnitudeIsMean | SingPongUnity/Assets/Scripts/SceneMgrScript.cs:70 | when the buffer's sum fits in 32 bits, `Magnitude` is the arithmetic mean of the buffer |
| MicModel.NewHoldsWindow | SingPongUnity/Assets/Scripts/SceneMgrScript.cs:25-43 | a fresh smoother's buffers, read from the index, are `readingCount` copies of the initial reading |
| MicModel.PushKeepsWindow | SingPongUnity/Assets/Scripts/SceneMgrScript.cs:45-60 | if the buffers read from the index are the last `readingCount` readings of a stream, then after a read they are the last `readingCount` readings of the stream extended by the new one |
| MicModel.FeedKeepsWindow | SingPongUnity/Assets/Scripts/SceneMgrScript.cs:45-60 | the same holds across any number of reads |
| MicModel.ReadAllIsFeed | SingPongUnity/Assets/Scripts/SceneMgrScript.cs:45-60 | on a non-empty window, a run of reads succeeds exactly when every line parses, and it then applies the parsed readings in order |
| MicModel.ParseAllIsEach | SingPongUnity/Assets/Scripts/SceneMgrScript.cs:47 | parsing a run of lines, as successive reads do, succeeds exactly when every line parses on its own, and the i-th parsed reading is the parse of the i-th line |
| MicModel.WindowAfterFeed | SingPongUnity/Assets/Scripts/SceneMgrScript.cs:45-71 | from any valid state with a non-empty window, pushing at least `readingCount` readings leaves the buffers holding exactly the last `readingCount` of them, oldest at the write index; `PeakFreq` is their mean, and `Magnitude` is their mean when their sum fits in 32 bits (otherwise the wrapped sum over the count) |
| MicModel.SlidingWindow | SingPongUnity/Assets/Scripts/SceneMgrScript.cs:45-71 | from any valid state with a non-empty window, a run of at least `readingCount` lines that each parse is read without error, and leaves the buffers holding exactly the last `readingCount` readings; `PeakFreq` is their mean, and `Magnitude` is their mean when their sum fits in 32 bits (otherwise the wrapped sum over the count) |
| MicModel.WindowOfFourExample | SingPongUnity/Assets/Scripts/SceneMgrScript.cs:25-71 | a window of 4 seeded with `10,100` and then read `50,200` averages magnitude 20 and peak frequency 125 |
| MicObject.MicData.Seed | SingPongUnity/Assets/Scripts/SceneMgrScript.cs:28-42 | the constructor's allocation and fill loop produce two new arrays and a state equal to `MicModel.Seeded`: every slot holds the initial reading, the index is 0, and the invariant holds |
| MicObject.MicData.Create | SingPongUnity/Assets/Scripts/SceneMgrScript.cs:25-43 | allocating and filling the arrays gives exactly the state `MicModel.New` describes, or the same error; the object and both of its arrays are newly allocated |
| MicObject.MicData.Read | SingPongUnity/Assets/Scripts/SceneMgrScript.cs:45-60 | the in-place read reaches the state `MicModel.Read` gives, or returns its error with nothing written |
| MicObject.MicData.Push | SingPongUnity/Assets/Scripts/SceneMgrScript.cs:49-59 | the array updates and the `while` wrap loop reach exactly the state `MicModel.Push` gives |
| MicObject.MicData.Magnitude | SingPongUnity/Assets/Scripts/SceneMgrScript.cs:70 | the accessor reads the fields without changing them and agrees with `MicModel.Magnitude` |
| MicObject.MicData.PeakFreq | SingPongUnity/Assets/Scripts/SceneMgrScript.cs:71 | the accessor reads the fields without changing them and agrees with `MicModel.PeakFreq` |

## Left out

- `Start`, `Update` and the `SerialPort` fields (lines 9-11 and 75-89):
  opening the port, blocking `ReadLine`, `Debug.Log` and the engine's
  lifecycle hooks are I/O. The lines they would pass in are parameters here.
- Floating point: `peakFreqs`, `freqTotal`, `double.Parse` and both
  divisions are modelled as exact `real` arithmetic. The model therefore
  says nothing about rounding or the drift of the running `double` total.
- MicModel.Magnitude: the quotient is stated exactly. The source converts the
  exact `int` total to `double` and divides in floating point, which rounds.
- NumberParsing.ParseDouble: the spellings of infinity and NaN are treated
  as FormatError, while .NET accepts them.
- NumberParsing.ParseDouble: for any exponent the model gives the exact real
  value. For a value beyond the `double` range, .NET Core 3.0 and later give
  infinity, while older .NET Framework and Mono runtimes throw
  `OverflowException`. A value too small for a `double` becomes 0 in .NET.
  Neither case is modelled.
- Culture: `int.Parse` and `double.Parse` use the current culture. The model
  fixes invariant-culture symbols: `+`, `-` and `.`.
- Readings.ParseReadingOfDecimal: the round trip covers peaks written as
  non-negative `w.f`. Signed peaks and peaks in exponent form parse through
  the same `ParseDouble`, but no round-trip lemma is stated for them.
- NumberParsing.ParseInt32 and NumberParsing.ParseDouble: the trailing NUL
  characters that .NET tolerates after the number are not accepted.
- A `null` line is not modelled. In the source it throws
  `NullReferenceException` at `reading.Split` (line 64). Dafny strings are
  never null.
- MicModel.New: a count so large that the arrays cannot be allocated (for
  example `int.MaxValue`, beyond .NET's maximum array length) makes the
  source throw `OutOfMemoryException` at lines 30-31. The model has no memory
  limit and returns the seeded state.
- MicObject.MicData.Create: the same allocation failure is not modelled.
- `MicObject.MicData.Seed`, the constructor, covers only the path where
  nothing is thrown. `MicObject.MicData.Create` wraps it and models the two
  exceptions the source's constructor can throw.
