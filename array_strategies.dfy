/**
 * The array strategies BYTE_ARRAY, INT_ARRAY, FLOAT_ARRAY and
 * FLOAT_ARRAY_ARRAY. The first three delegate to `java.util.Arrays`, whose
 * `hashCode` and `equals` are modelled here from the Java SE documentation;
 * the last is a hand-written loop over the rows of a `float[][]`.
 */
module ArrayStrategies {
  import opened JavaTypes
  import opened PolynomialHash

  // ---------------------------------------------------------------------
  // byte[] and int[]
  // ---------------------------------------------------------------------

  /**
   * `Arrays.hashCode` of an array of integral elements: 0 for null, else the
   * polynomial hash from 1. A `byte` enters the hash sign-extended to `int`.
   */
  function ArraysHashCode(a: Nullable<seq<Int32>>): (r: Int32)
    ensures a.Null? ==> r == 0
    ensures a.NonNull? ==> r == Wrap(Pow31(|a.value|) + Weighted(a.value))
  {
    match a
    case Null => 0
    case NonNull(s) => PolyHashClosedForm(1, s); PolyHash(1, s)
  }

  /** `Arrays.equals` of two arrays of integral elements. */
  function ArraysEquals(a: Nullable<seq<Int32>>, b: Nullable<seq<Int32>>): (r: bool)
    ensures r <==> (a.Null? && b.Null?) ||
                   (a.NonNull? && b.NonNull? && |a.value| == |b.value| &&
                    forall i :: 0 <= i < |a.value| ==> a.value[i] == b.value[i])
  {
    match (a, b)
    case (Null, Null) => true
    case (NonNull(s), NonNull(t)) => s == t
    case _ => false
  }

  lemma ArraysHashConsistent(a: Nullable<seq<Int32>>, b: Nullable<seq<Int32>>)
    requires ArraysEquals(a, b)
    ensures ArraysHashCode(a) == ArraysHashCode(b)
  {
  }

  /** A `byte[]` seen as the sign-extended `int`s its elements are promoted to. */
  function Promote(a: Nullable<seq<Int8>>): (r: Nullable<seq<Int32>>)
  {
    match a
    case Null => Null
    case NonNull(s) => NonNull(seq(|s|, i requires 0 <= i < |s| => s[i] as Int32))
  }

  /** BYTE_ARRAY's hash. */
  function ByteArrayHashCode(a: Nullable<seq<Int8>>): Int32
  {
    ArraysHashCode(Promote(a))
  }

  /** BYTE_ARRAY's equality. */
  predicate ByteArrayEquals(a: Nullable<seq<Int8>>, b: Nullable<seq<Int8>>)
  {
    ArraysEquals(Promote(a), Promote(b))
  }

  /** INT_ARRAY's hash. */
  function IntArrayHashCode(a: Nullable<seq<Int32>>): Int32
  {
    ArraysHashCode(a)
  }

  /** INT_ARRAY's equality. */
  predicate IntArrayEquals(a: Nullable<seq<Int32>>, b: Nullable<seq<Int32>>)
  {
    ArraysEquals(a, b)
  }

  /** BYTE_ARRAY compares the bytes themselves: promotion loses nothing. */
  lemma ByteArrayEqualsBytewise(a: Nullable<seq<Int8>>, b: Nullable<seq<Int8>>)
    ensures ByteArrayEquals(a, b) <==>
              ((a.Null? && b.Null?) ||
               (a.NonNull? && b.NonNull? && |a.value| == |b.value| &&
                forall i :: 0 <= i < |a.value| ==> a.value[i] == b.value[i]))
  {
    if a.NonNull? && b.NonNull? && |a.value| == |b.value| {
      var p, q := Promote(a).value, Promote(b).value;
      assert forall i :: 0 <= i < |a.value| ==> p[i] == a.value[i] && q[i] == b.value[i];
    }
  }

  /** Bytes are signed: `(byte) 0xff` is -1 and contributes -1, not 255. */
  lemma ByteArraySignExtended()
    ensures ByteArrayHashCode(NonNull([-1])) == 30
    ensures ByteArrayHashCode(NonNull([-128, 127])) == 31 * 31 - 128 * 31 + 127
  {
    assert [-128, 127][..1] == [-128];
  }

  /** The order of the elements matters to both operations. */
  lemma IntArrayOrderSensitive()
    ensures !IntArrayEquals(NonNull([1, 2]), NonNull([2, 1]))
    ensures IntArrayHashCode(NonNull([1, 2])) == 994
    ensures IntArrayHashCode(NonNull([2, 1])) == 1024
  {
    assert [1, 2][..1] == [1] && [2, 1][..1] == [2];
  }

  // ---------------------------------------------------------------------
  // float[]
  // ---------------------------------------------------------------------

  /** The `floatToIntBits` value of every element, in order. */
  function FloatBits(s: seq<Float>): (r: seq<Int32>)
    ensures |r| == |s|
    ensures forall i :: 0 <= i < |s| ==> r[i] == FloatToIntBits(s[i])
  {
    seq(|s|, i requires 0 <= i < |s| => FloatToIntBits(s[i]))
  }

  /**
   * `Arrays.hashCode(float[])`: 0 for null, else the polynomial hash from 1
   * over the elements' `floatToIntBits` values.
   */
  function FloatArrayHashCode(a: Nullable<seq<Float>>): (r: Int32)
    ensures a.Null? ==> r == 0
    ensures a.NonNull? ==> r == Wrap(Pow31(|a.value|) + Weighted(FloatBits(a.value)))
  {
    match a
    case Null => 0
    case NonNull(s) => PolyHashClosedForm(1, FloatBits(s)); PolyHash(1, FloatBits(s))
  }

  /**
   * `Arrays.equals(float[], float[])`: elements compare by `floatToIntBits`,
   * so every NaN equals every NaN and 0.0 differs from -0.0.
   */
  function FloatArrayEquals(a: Nullable<seq<Float>>, b: Nullable<seq<Float>>): (r: bool)
    ensures r <==> (a.Null? && b.Null?) ||
                   (a.NonNull? && b.NonNull? && |a.value| == |b.value| &&
                    forall i :: 0 <= i < |a.value| ==> FloatToIntBits(a.value[i]) == FloatToIntBits(b.value[i]))
  {
    match (a, b)
    case (Null, Null) => true
    case (NonNull(s), NonNull(t)) => FloatBits(s) == FloatBits(t)
    case _ => false
  }

  lemma FloatArrayHashConsistent(a: Nullable<seq<Float>>, b: Nullable<seq<Float>>)
    requires FloatArrayEquals(a, b)
    ensures FloatArrayHashCode(a) == FloatArrayHashCode(b)
  {
  }

  /** FLOAT_ARRAY equality is an equivalence, reflexive even on NaN elements. */
  lemma FloatArrayEqualsEquivalence(a: Nullable<seq<Float>>, b: Nullable<seq<Float>>, c: Nullable<seq<Float>>)
    ensures FloatArrayEquals(a, a)
    ensures FloatArrayEquals(a, b) ==> FloatArrayEquals(b, a)
    ensures FloatArrayEquals(a, b) && FloatArrayEquals(b, c) ==> FloatArrayEquals(a, c)
  {
  }

  /** Arrays that differ only in NaN payloads are equal and hash alike. */
  lemma FloatArrayNaNPayloads(s: seq<Float>, t: seq<Float>)
    requires |s| == |t|
    requires forall i :: 0 <= i < |s| ==> s[i] == t[i] || (IsNaN(s[i]) && IsNaN(t[i]))
    ensures FloatArrayEquals(NonNull(s), NonNull(t))
    ensures FloatArrayHashCode(NonNull(s)) == FloatArrayHashCode(NonNull(t))
  {
    forall i | 0 <= i < |s|
      ensures FloatToIntBits(s[i]) == FloatToIntBits(t[i])
    {
      FloatToIntBitsCanonical(s[i], t[i]);
    }
  }

  // ---------------------------------------------------------------------
  // float[][]
  // ---------------------------------------------------------------------

  /** A Java `float[][]`: a nullable array of nullable rows. */
  type FloatMatrix = Nullable<seq<Nullable<seq<Float>>>>

  /** `Arrays.hashCode` of every row, in order; a null row gives 0. */
  function RowHashes(rows: seq<Nullable<seq<Float>>>): (r: seq<Int32>)
    ensures |r| == |rows|
    ensures forall i :: 0 <= i < |rows| ==> r[i] == FloatArrayHashCode(rows[i])
  {
    seq(|rows|, i requires 0 <= i < |rows| => FloatArrayHashCode(rows[i]))
  }

  /** The value FLOAT_ARRAY_ARRAY's hash computes for a non-null matrix. */
  function MatrixHash(rows: seq<Nullable<seq<Float>>>): Int32
  {
    PolyHash(1, RowHashes(rows))
  }

  /** When FLOAT_ARRAY_ARRAY considers two matrices equal. */
  predicate MatrixEquals(o1: FloatMatrix, o2: FloatMatrix)
  {
    if o1.Null? then o2.Null?
    else
      o2.NonNull? && |o1.value| == |o2.value| &&
      forall i :: 0 <= i < |o1.value| ==> FloatArrayEquals(o1.value[i], o2.value[i])
  }

  /**
   * FloatArrayArray.computeHashCode: `hash * 31 + Arrays.hashCode(row)` over
   * the rows from 1. The outer array is dereferenced, so it must not be null.
   */
  method FloatArrayArrayHashCode(matrix: FloatMatrix) returns (hash: Int32)
    requires matrix.NonNull?
    ensures hash == MatrixHash(matrix.value)
    ensures hash == Wrap(Pow31(|matrix.value|) + Weighted(RowHashes(matrix.value)))
  {
    var rows := matrix.value;
    ghost var hashes := RowHashes(rows);
    hash := 1;
    for i := 0 to |rows|
      invariant hash == PolyHash(1, hashes[..i])
    {
      assert hashes[..i + 1][..i] == hashes[..i];
      hash := Add32(Mul32(hash, 31), FloatArrayHashCode(rows[i]));
    }
    assert hashes[..|rows|] == hashes;
    PolyHashClosedForm(1, hashes);
  }

  /**
   * FloatArrayArray.equals: a null `o1` equals only null; otherwise `o2` is
   * dereferenced (so it must not be null), lengths must agree and the rows
   * are compared with `Arrays.equals` until the first mismatch.
   */
  method FloatArrayArrayEquals(o1: FloatMatrix, o2: FloatMatrix) returns (r: bool)
    requires o1.NonNull? ==> o2.NonNull?
    ensures r == MatrixEquals(o1, o2)
  {
    if o1.Null? {
      return o2.Null?;
    }
    if |o1.value| != |o2.value| {
      return false;
    }
    for i := 0 to |o1.value|
      invariant forall k :: 0 <= k < i ==> FloatArrayEquals(o1.value[k], o2.value[k])
    {
      if !FloatArrayEquals(o1.value[i], o2.value[i]) {
        return false;
      }
    }
    return true;
  }

  /** Equal non-null matrices have equal FLOAT_ARRAY_ARRAY hashes. */
  lemma FloatArrayArrayHashConsistent(o1: FloatMatrix, o2: FloatMatrix)
    requires o1.NonNull? && MatrixEquals(o1, o2)
    ensures o2.NonNull? && MatrixHash(o1.value) == MatrixHash(o2.value)
  {
    var h1, h2 := RowHashes(o1.value), RowHashes(o2.value);
    forall i | 0 <= i < |h1|
      ensures h1[i] == h2[i]
    {
      FloatArrayHashConsistent(o1.value[i], o2.value[i]);
    }
    assert h1 == h2;
  }

  /** FLOAT_ARRAY_ARRAY equality is reflexive, NaN elements included. */
  lemma MatrixEqualsReflexive(o: FloatMatrix)
    ensures MatrixEquals(o, o)
  {
  }
}
