/**
 * Sums of buffer contents, for the integer magnitude channel and the
 * (idealised, real-valued) peak-frequency channel.
 */
module Sums {
  import opened Ring

  function SumInt(s: seq<int>): int {
    if |s| == 0 then 0 else SumInt(s[..|s| - 1]) + s[|s| - 1]
  }

  function SumReal(s: seq<real>): real {
    if |s| == 0 then 0.0 else SumReal(s[..|s| - 1]) + s[|s| - 1]
  }

  lemma {:induction false} SumIntAppend(a: seq<int>, b: seq<int>)
    ensures SumInt(a + b) == SumInt(a) + SumInt(b)
    decreases |b|
  {
    if |b| == 0 {
      assert a + b == a;
    } else {
      assert (a + b)[..|a + b| - 1] == a + b[..|b| - 1];
      SumIntAppend(a, b[..|b| - 1]);
    }
  }

  lemma {:induction false} SumRealAppend(a: seq<real>, b: seq<real>)
    ensures SumReal(a + b) == SumReal(a) + SumReal(b)
    decreases |b|
  {
    if |b| == 0 {
      assert a + b == a;
    } else {
      assert (a + b)[..|a + b| - 1] == a + b[..|b| - 1];
      SumRealAppend(a, b[..|b| - 1]);
    }
  }

  /** Overwriting one slot changes the sum by the new value minus the old. */
  lemma SumIntUpdate(s: seq<int>, i: int, x: int)
    requires 0 <= i < |s|
    ensures SumInt(s[i := x]) == SumInt(s) - s[i] + x
  {
    assert s == s[..i] + [s[i]] + s[i + 1..];
    assert s[i := x] == s[..i] + [x] + s[i + 1..];
    SumIntAppend(s[..i] + [s[i]], s[i + 1..]);
    SumIntAppend(s[..i], [s[i]]);
    SumIntAppend(s[..i] + [x], s[i + 1..]);
    SumIntAppend(s[..i], [x]);
  }

  lemma SumRealUpdate(s: seq<real>, i: int, x: real)
    requires 0 <= i < |s|
    ensures SumReal(s[i := x]) == SumReal(s) - s[i] + x
  {
    assert s == s[..i] + [s[i]] + s[i + 1..];
    assert s[i := x] == s[..i] + [x] + s[i + 1..];
    SumRealAppend(s[..i] + [s[i]], s[i + 1..]);
    SumRealAppend(s[..i], [s[i]]);
    SumRealAppend(s[..i] + [x], s[i + 1..]);
    SumRealAppend(s[..i], [x]);
  }

  /** A buffer seeded with `n` copies of `x` sums to `x * n`. */
  lemma {:induction false} SumIntRepeat(x: int, n: nat)
    ensures SumInt(Repeat(x, n)) == x * n
  {
    if n > 0 {
      assert Repeat(x, n)[..n - 1] == Repeat(x, n - 1);
      SumIntRepeat(x, n - 1);
    }
  }

  lemma {:induction false} SumRealRepeat(x: real, n: nat)
    ensures SumReal(Repeat(x, n)) == x * n as real
  {
    if n > 0 {
      assert Repeat(x, n)[..n - 1] == Repeat(x, n - 1);
      SumRealRepeat(x, n - 1);
    }
  }

  /** Reading a buffer from a different start slot does not change its sum. */
  lemma SumIntRotate(b: seq<int>, start: int)
    requires 0 <= start <= |b|
    ensures SumInt(Rotate(b, start)) == SumInt(b)
  {
    assert b == b[..start] + b[start..];
    SumIntAppend(b[..start], b[start..]);
    SumIntAppend(b[start..], b[..start]);
  }

  lemma SumRealRotate(b: seq<real>, start: int)
    requires 0 <= start <= |b|
    ensures SumReal(Rotate(b, start)) == SumReal(b)
  {
    assert b == b[..start] + b[start..];
    SumRealAppend(b[..start], b[start..]);
    SumRealAppend(b[start..], b[..start]);
  }
}
