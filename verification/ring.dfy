/**
 * Index discipline of a fixed-size circular buffer: the wrap-around of the
 * write position, and the reading order "oldest slot first" that makes the
 * buffer's contents comparable with the stream of values written into it.
 */
module Ring {

  /** `n` copies of `x`: a buffer whose every slot holds the same value. */
  function Repeat<T>(x: T, n: nat): (r: seq<T>)
    ensures |r| == n
    ensures forall i :: 0 <= i < n ==> r[i] == x
  {
    seq(n, _ => x)
  }

  /**
   * The position left by `while (i >= n) i -= n;`: below `n`, unchanged if
   * already below `n`, and never negative for a non-negative start.
   */
  function WrapDown(i: int, n: int): (r: int)
    requires n > 0
    ensures r < n
    ensures i < n ==> r == i
    ensures 0 <= i ==> 0 <= r
    decreases i
  {
    if i >= n then WrapDown(i - n, n) else i
  }

  /** For a non-negative start the loop computes the remainder modulo `n`. */
  lemma {:induction false} WrapDownIsMod(i: int, n: int)
    requires n > 0 && 0 <= i
    ensures WrapDown(i, n) == i % n
    decreases i
  {
    if i >= n {
      WrapDownIsMod(i - n, n);
      ModOfShift(i - n, n);
    }
  }

  lemma ModOfShift(i: int, n: int)
    requires n > 0
    ensures (i + n) % n == i % n
  {
    var q, r := i / n, i % n;
    assert i + n == (q + 1) * n + r;
    var k := (i + n) / n - (q + 1);
    assert k * n == r - (i + n) % n;
  }

  /** The buffer read from slot `start` round to slot `start - 1`. */
  function Rotate<T>(b: seq<T>, start: int): (r: seq<T>)
    requires 0 <= start <= |b|
    ensures |r| == |b|
  {
    b[start..] + b[..start]
  }

  /** The last `n` values of a stream, oldest first. */
  function Latest<T>(all: seq<T>, n: nat): (r: seq<T>)
    requires n <= |all|
    ensures |r| == n
  {
    all[|all| - n..]
  }

  /**
   * Overwriting the slot at the read start and advancing the start by one
   * drops the oldest value of the rotation and appends the new one.
   */
  lemma RotateAfterWrite<T>(b: seq<T>, start: int, x: T)
    requires 0 <= start < |b|
    ensures Rotate(b[start := x], WrapDown(start + 1, |b|)) == Rotate(b, start)[1..] + [x]
  {
    var b' := b[start := x];
    if start + 1 < |b| {
      assert b'[start + 1..] == b[start + 1..];
      assert b'[..start + 1] == b[..start] + [x];
      assert Rotate(b, start)[1..] == b[start + 1..] + b[..start];
    } else {
      assert WrapDown(start + 1, |b|) == 0;
      assert b' == b[..start] + [x];
      assert Rotate(b, start)[1..] == b[..start];
    }
  }

  /** Appending one value to the stream slides its last-`n` window by one. */
  lemma LatestAfterAppend<T>(all: seq<T>, n: nat, x: T)
    requires 0 < n <= |all|
    ensures Latest(all + [x], n) == Latest(all, n)[1..] + [x]
  {
  }

  /** Once `n` values follow a prefix, the prefix is out of the window. */
  lemma LatestOfSuffix<T>(prefix: seq<T>, rest: seq<T>, n: nat)
    requires n <= |rest|
    ensures Latest(prefix + rest, n) == Latest(rest, n)
  {
  }
}
