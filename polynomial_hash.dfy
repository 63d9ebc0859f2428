/**
 * The polynomial hash that `java.util.Arrays.hashCode` documents and that
 * the hand-written strategies repeat: start from an accumulator and, for
 * each element `e` in order, replace it by `acc * 31 + e` in Java `int`
 * arithmetic.
 */
module PolynomialHash {
  import opened JavaTypes

  /** One step of the fold, `hash * 31 + e`, each operation wrapping. */
  function HashStep(acc: Int32, e: Int32): Int32
  {
    Add32(Mul32(acc, 31), e)
  }

  /** The fold of `HashStep` over `s`, left to right, starting at `acc`. */
  function PolyHash(acc: Int32, s: seq<Int32>): Int32
    decreases |s|
  {
    if s == [] then acc else HashStep(PolyHash(acc, s[..|s| - 1]), s[|s| - 1])
  }

  function Pow31(n: nat): nat
  {
    if n == 0 then 1 else 31 * Pow31(n - 1)
  }

  /** `s[0]*31^(n-1) + s[1]*31^(n-2) + ... + s[n-1]`, without wrap-around. */
  function Weighted(s: seq<int>): int
  {
    if s == [] then 0 else s[0] * Pow31(|s| - 1) + Weighted(s[1..])
  }

  /** Wrapping after each step is the same as wrapping once at the end. */
  lemma HashStepWrap(acc: int, e: Int32)
    ensures HashStep(Wrap(acc), e) == Wrap(acc * 31 + e)
  {
    WrapMul31(acc);
    WrapAddLeft(Wrap(acc) * 31, e);
    WrapAddLeft(acc * 31, e);
  }

  lemma {:induction false} WeightedSnoc(s: seq<int>, e: int)
    ensures Weighted(s + [e]) == 31 * Weighted(s) + e
  {
    if s == [] {
      assert [] + [e] == [e];
    } else {
      var t := s + [e];
      assert t[0] == s[0] && t[1..] == s[1..] + [e];
      WeightedSnoc(s[1..], e);
      var p := Pow31(|s| - 1);
      assert Pow31(|t| - 1) == 31 * p;
      assert s[0] * (31 * p) == 31 * (s[0] * p);
    }
  }

  /**
   * The closed form of the fold: `acc*31^n + s[0]*31^(n-1) + ... + s[n-1]`
   * reduced to a Java `int`.
   */
  lemma {:induction false} PolyHashClosedForm(acc: Int32, s: seq<Int32>)
    ensures PolyHash(acc, s) == Wrap(acc * Pow31(|s|) + Weighted(s))
    decreases |s|
  {
    if s != [] {
      var p, e := s[..|s| - 1], s[|s| - 1];
      assert s == p + [e];
      PolyHashClosedForm(acc, p);
      var pow, w := Pow31(|p|), Weighted(p);
      var x := acc * pow + w;
      assert PolyHash(acc, s) == HashStep(Wrap(x), e);
      HashStepWrap(x, e);
      WeightedSnoc(p, e);
      assert Pow31(|s|) == 31 * pow;
      MulAssoc31(acc, pow);
      assert x * 31 + e == acc * Pow31(|s|) + Weighted(s);
    }
  }

  lemma MulAssoc31(a: int, b: int)
    ensures (a * b) * 31 == a * (31 * b)
  {
  }

  /** Folding a concatenation is folding the second part from the first's result. */
  lemma {:induction false} PolyHashAppend(acc: Int32, a: seq<Int32>, b: seq<Int32>)
    ensures PolyHash(acc, a + b) == PolyHash(PolyHash(acc, a), b)
    decreases |b|
  {
    if b == [] {
      assert a + b == a;
    } else {
      var p, e := b[..|b| - 1], b[|b| - 1];
      assert (a + b)[..|a + b| - 1] == a + p;
      PolyHashAppend(acc, a, p);
    }
  }
}
