/**
 * The Java value semantics the hashing strategies rest on: 32-bit
 * two's-complement `int` arithmetic, the signed `byte`, the bit pattern of a
 * `float` as `Float.floatToIntBits` reports it, and nullable references.
 */
module JavaTypes {

  /** Java `int`: a 32-bit two's-complement integer. */
  type Int32 = x: int | -0x8000_0000 <= x < 0x8000_0000

  /** Java `byte`: an 8-bit two's-complement integer. */
  type Int8 = x: int | -0x80 <= x < 0x80

  /** 2^32, the modulus of Java `int` arithmetic. */
  const Modulus: int := 0x1_0000_0000

  /** A Java reference that may be `null`: arrays and objects alike. */
  datatype Nullable<+T> = Null | NonNull(value: T)

  /** The Java `int` that a mathematical integer wraps around to. */
  function Wrap(x: int): (r: Int32)
    ensures -0x8000_0000 <= x < 0x8000_0000 ==> r == x
    ensures (x - r) % Modulus == 0
  {
    (x + 0x8000_0000) % Modulus - 0x8000_0000
  }

  /** Java `a * b` on `int` operands. */
  function Mul32(a: Int32, b: Int32): Int32
  {
    Wrap(a * b)
  }

  /** Java `a + b` on `int` operands. */
  function Add32(a: Int32, b: Int32): Int32
  {
    Wrap(a + b)
  }

  /** Adding a multiple of 2^32 does not change the wrapped value. */
  lemma WrapShift(x: int, k: int)
    ensures Wrap(x + k * Modulus) == Wrap(x)
  {
    var y := x + 0x8000_0000;
    var q, m := y / Modulus, y % Modulus;
    assert y == q * Modulus + m && 0 <= m < Modulus;
    assert y + k * Modulus == (q + k) * Modulus + m;
    DivModUnique(y + k * Modulus, q + k, m);
  }

  /** Euclidean division by 2^32 has a unique remainder. */
  lemma DivModUnique(y: int, q: int, m: int)
    requires y == q * Modulus + m && 0 <= m < Modulus
    ensures y % Modulus == m
  {
  }

  /** A wrapped value differs from the original by a multiple of 2^32. */
  lemma WrapOffset(x: int) returns (k: int)
    ensures Wrap(x) == x + k * Modulus
  {
    k := (Wrap(x) - x) / Modulus;
  }

  /** Wrapping an operand early does not change a wrapped sum. */
  lemma WrapAddLeft(a: int, b: int)
    ensures Wrap(Wrap(a) + b) == Wrap(a + b)
  {
    var k := WrapOffset(a);
    assert Wrap(a) + b == (a + b) + k * Modulus;
    WrapShift(a + b, k);
  }

  /** Wrapping an operand early does not change a wrapped product by 31. */
  lemma WrapMul31(a: int)
    ensures Wrap(Wrap(a) * 31) == Wrap(a * 31)
  {
    var k := WrapOffset(a);
    assert Wrap(a) * 31 == a * 31 + (31 * k) * Modulus;
    WrapShift(a * 31, 31 * k);
  }

  /**
   * A Java `float`, held as its raw IEEE 754 single-precision bit pattern
   * (what `Float.floatToRawIntBits` returns).
   */
  datatype Float = Float(rawBits: Int32)

  /** The bit pattern read as an unsigned 32-bit number. */
  function Unsigned(b: Int32): (u: nat)
    ensures u < Modulus && (u - b) % Modulus == 0
  {
    if b < 0 then b + Modulus else b
  }

  /** IEEE 754: all eight exponent bits set and a non-zero fraction. */
  predicate IsNaN(f: Float)
  {
    var u := Unsigned(f.rawBits);
    u / 0x80_0000 % 0x100 == 0xFF && u % 0x80_0000 != 0
  }

  /** The one NaN bit pattern `Float.floatToIntBits` ever returns. */
  const CanonicalNaN: Int32 := 0x7fc0_0000

  /**
   * `Float.floatToIntBits`: the raw bit pattern, except that every NaN is
   * collapsed to the canonical NaN pattern.
   */
  function FloatToIntBits(f: Float): (r: Int32)
    ensures IsNaN(Float(r)) <==> IsNaN(f)
  {
    if IsNaN(f) then CanonicalNaN else f.rawBits
  }

  /**
   * Two floats have the same `floatToIntBits` exactly when their raw bits
   * agree or both are NaN (of any payload); the result is a fixed point.
   */
  lemma FloatToIntBitsCanonical(f: Float, g: Float)
    ensures FloatToIntBits(f) == FloatToIntBits(g) <==> f == g || (IsNaN(f) && IsNaN(g))
    ensures FloatToIntBits(Float(FloatToIntBits(f))) == FloatToIntBits(f)
  {
    assert IsNaN(Float(CanonicalNaN));
  }
}
