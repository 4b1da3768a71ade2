/** 32-bit two's-complement integers as C# evaluates them in an unchecked context:
    every sum, difference, product and negation wraps modulo 2^32. */
module Int32Arith {

  const Modulus: int := 0x1_0000_0000
  const MinValue: int := -0x8000_0000
  const MaxValue: int := 0x7fff_ffff

  /** The values a C# `int` can hold. */
  type Int32 = x: int | -0x8000_0000 <= x <= 0x7fff_ffff

  /** The `int` that C# keeps of the exact integer `x`: its residue modulo 2^32,
      read as a signed number. */
  function Wrap(x: int): Int32
  {
    (x + 0x8000_0000) % Modulus - 0x8000_0000
  }

  function Add(a: Int32, b: Int32): Int32 { Wrap(a + b) }
  function Sub(a: Int32, b: Int32): Int32 { Wrap(a - b) }
  function Mul(a: Int32, b: Int32): Int32 { Wrap(a * b) }
  function Neg(a: Int32): Int32 { Wrap(-(a as int)) }

  /** Wrapping does not change a value that already fits. */
  lemma WrapInRange(x: int)
    requires MinValue <= x <= MaxValue
    ensures Wrap(x) == x
  {
  }

  /** Wrapping only removes whole multiples of 2^32. */
  lemma WrapEquation(x: int)
    ensures Wrap(x) == x - ((x + 0x8000_0000) / Modulus) * Modulus
  {
  }

  /** Adding a multiple of 2^32 is invisible after wrapping. */
  lemma WrapShift(x: int, k: int)
    ensures Wrap(x + k * Modulus) == Wrap(x)
  {
  }

  /** Two integers that differ by a multiple of 2^32 wrap to the same value. */
  lemma WrapCongruent(x: int, y: int, k: int)
    requires x == y + k * Modulus
    ensures Wrap(x) == Wrap(y)
  {
    WrapShift(y, k);
  }

  /** The four wrapped operations agree with exact arithmetic followed by one wrap,
      so any expression built from them is the wrap of the same exact expression. */
  lemma AddWrap(x: int, y: int)
    ensures Add(Wrap(x), Wrap(y)) == Wrap(x + y)
  {
    var p, q := (x + 0x8000_0000) / Modulus, (y + 0x8000_0000) / Modulus;
    WrapEquation(x);
    WrapEquation(y);
    WrapCongruent(Wrap(x) + Wrap(y), x + y, -p - q);
  }

  lemma SubWrap(x: int, y: int)
    ensures Sub(Wrap(x), Wrap(y)) == Wrap(x - y)
  {
    var p, q := (x + 0x8000_0000) / Modulus, (y + 0x8000_0000) / Modulus;
    WrapEquation(x);
    WrapEquation(y);
    WrapCongruent(Wrap(x) - Wrap(y), x - y, q - p);
  }

  lemma NegWrap(x: int)
    ensures Neg(Wrap(x)) == Wrap(-x)
  {
    var p := (x + 0x8000_0000) / Modulus;
    WrapEquation(x);
    WrapCongruent(-(Wrap(x) as int), -x, p);
  }

  lemma MulWrap(x: int, y: int)
    ensures Mul(Wrap(x), Wrap(y)) == Wrap(x * y)
  {
    var p, q := (x + 0x8000_0000) / Modulus, (y + 0x8000_0000) / Modulus;
    WrapEquation(x);
    WrapEquation(y);
    var k := p * q * Modulus - p * y - q * x;
    assert Wrap(x) * Wrap(y) == (x - p * Modulus) * (y - q * Modulus);
    assert (x - p * Modulus) * (y - q * Modulus) == x * y + k * Modulus;
    WrapCongruent(Wrap(x) * Wrap(y), x * y, k);
  }

  /** Wrapped multiplication and addition are commutative, and negating a
      difference swaps its operands. */
  lemma Commutes(a: Int32, b: Int32)
    ensures Mul(a, b) == Mul(b, a)
    ensures Add(a, b) == Add(b, a)
    ensures Neg(Sub(a, b)) == Sub(b, a)
  {
    WrapInRange(a);
    WrapInRange(b);
    NegWrap(a - b);
  }

  /** A 2x2 determinant of wrapped products changes sign when its two columns
      are swapped, and is zero when they are equal. */
  lemma DeterminantAntisymmetric(p: Int32, q: Int32, r: Int32, s: Int32)
    ensures Sub(Mul(p, q), Mul(r, s)) == Neg(Sub(Mul(s, r), Mul(q, p)))
    ensures Sub(Mul(p, q), Mul(q, p)) == 0
  {
    Commutes(s, r);
    Commutes(q, p);
    Commutes(Mul(r, s), Mul(p, q));
    WrapInRange(0);
  }

  /** Overflow wraps around instead of failing. */
  lemma AddOverflows()
    ensures Add(MaxValue, 1) == MinValue
    ensures Sub(MinValue, 1) == MaxValue
    ensures Neg(MinValue) == MinValue
  {
  }

  /** `(int)x` for a double `x` whose truncation fits in an `int`: the fractional
      part is dropped, moving the value toward zero. */
  function Truncate(x: real): (r: Int32)
    requires -2147483649.0 < x < 2147483648.0
    ensures 0.0 <= x ==> r as real <= x < r as real + 1.0
    ensures x <= 0.0 ==> r as real - 1.0 < x <= r as real
  {
    if x >= 0.0 then x.Floor else -((-x).Floor)
  }

  /** Widening to a double commutes with multiplication. */
  lemma CastProduct(x: int, y: int)
    ensures (x * y) as real == x as real * y as real
  {
  }

  /** Widening an `int` to a double and truncating it back is lossless. */
  lemma TruncateOfWhole(n: Int32)
    ensures Truncate(n as real) == n
  {
  }

  /** Truncation toward zero is not rounding: 1.9 gives 1 and -1.9 gives -1. */
  lemma TruncateExamples()
    ensures Truncate(1.9) == 1 && Truncate(-1.9) == -1
  {
  }
}
