/**
 * Two's-complement 32-bit integers, as C# `int` behaves in an unchecked
 * context: every arithmetic result is reduced into [-2^31, 2^31) modulo 2^32.
 */
module Int32 {

  const Modulus: int := 0x1_0000_0000
  const Min: int := -0x8000_0000
  const Max: int := 0x7FFF_FFFF

  predicate InRange(x: int) {
    Min <= x <= Max
  }

  /** The value an unchecked C# `int` operation yields for the exact result `x`. */
  function Wrap(x: int): (r: int)
    ensures InRange(r)
    ensures InRange(x) ==> r == x
    ensures (x - r) % Modulus == 0
  {
    (x - Min) % Modulus + Min
  }

  /** Integers that agree modulo 2^32 wrap to the same `int`. */
  lemma WrapCongruent(x: int, y: int)
    requires (x - y) % Modulus == 0
    ensures Wrap(x) == Wrap(y)
  {
    var k := (x - y) / Modulus;
    assert x - Min == (y - Min) + k * Modulus;
    var q := (y - Min) / Modulus;
    assert x - Min == (q + k) * Modulus + (y - Min) % Modulus;
  }

  /** Wrapping an intermediate result does not change the final wrapped sum. */
  lemma WrapAdd(a: int, b: int)
    ensures Wrap(Wrap(a) + b) == Wrap(a + b)
  {
    WrapCongruent(Wrap(a) + b, a + b);
  }
}
