/**
 * The iteration order of Guava's `ImmutableSet.of(e1, ..., en)`: each
 * element in argument order, except that an element equal to an earlier
 * one is dropped (the first occurrence is the one kept).
 */
module ImmutableSets {

  predicate NoDuplicates<T(==)>(s: seq<T>)
  {
    forall i, j :: 0 <= i < j < |s| ==> s[i] != s[j]
  }

  /** Position of the first occurrence of `x` in `s`. */
  function FirstIndex<T(==)>(s: seq<T>, x: T): (k: nat)
    requires x in s
    ensures k < |s| && s[k] == x && x !in s[..k]
  {
    if s[0] == x then 0 else 1 + FirstIndex(s[1..], x)
  }

  /** The elements `ImmutableSet.of(s[0], ..., s[|s|-1])` iterates over. */
  function Distinct<T(==)>(s: seq<T>): (r: seq<T>)
    ensures NoDuplicates(r)
    ensures forall i :: 0 <= i < |r| ==> r[i] in s
    ensures forall i :: 0 <= i < |s| ==> s[i] in r
    ensures |r| <= |s|
    decreases |s|
  {
    if s == [] then []
    else
      var r, e := Distinct(s[..|s| - 1]), s[|s| - 1];
      assert forall i :: 0 <= i < |s| - 1 ==> s[i] == s[..|s| - 1][i];
      if e in r then r else r + [e]
  }

  lemma FirstIndexPrefix<T>(s: seq<T>, n: nat, x: T)
    requires n <= |s| && x in s[..n]
    ensures FirstIndex(s, x) == FirstIndex(s[..n], x)
  {
    var k' := FirstIndex(s[..n], x);
    assert s[..n][..k'] == s[..k'];
  }

  /** `Distinct` keeps the elements in the order of their first occurrence. */
  lemma {:induction false} DistinctOrder<T>(s: seq<T>, i: nat, j: nat)
    requires i < j < |Distinct(s)|
    ensures FirstIndex(s, Distinct(s)[i]) < FirstIndex(s, Distinct(s)[j])
    decreases |s|
  {
    var p, e := s[..|s| - 1], s[|s| - 1];
    var r, rp := Distinct(s), Distinct(p);
    assert s[..|s| - 1] == p;
    assert r[i] in rp by {
      assert i < |rp|;
    }
    FirstIndexPrefix(s, |s| - 1, r[i]);
    if j < |rp| {
      FirstIndexPrefix(s, |s| - 1, r[j]);
      DistinctOrder(p, i, j);
    } else {
      assert r[j] == e && e !in p;
      assert FirstIndex(s, e) == |s| - 1;
    }
  }

  /** With no repeated elements every one is iterated, in argument order. */
  lemma {:induction false} DistinctOfNoDuplicates<T>(s: seq<T>)
    requires NoDuplicates(s)
    ensures Distinct(s) == s
    decreases |s|
  {
    if s != [] {
      var p := s[..|s| - 1];
      DistinctOfNoDuplicates(p);
      assert s[|s| - 1] !in p;
      assert p + [s[|s| - 1]] == s;
    }
  }

  /** Repeating one element any number of times yields it once. */
  lemma {:induction false} DistinctOfRepeated<T>(s: seq<T>, x: T)
    requires |s| > 0 && forall i :: 0 <= i < |s| ==> s[i] == x
    ensures Distinct(s) == [x]
    decreases |s|
  {
    if |s| > 1 {
      DistinctOfRepeated(s[..|s| - 1], x);
    }
  }
}
