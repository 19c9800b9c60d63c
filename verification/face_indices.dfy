/** The test helper that compares two faces given as lists of vertex indices:
    they are equal when one list is a cyclic rotation of the other. */
module FaceIndices {

  /** b is a cyclic rotation of a: both have the same length and, for some
      offset j, every a[i] sits at position (j + i) mod |a| of b. */
  ghost predicate IsRotation(a: seq<int>, b: seq<int>)
  {
    |a| == |b| && exists j | 0 <= j < |b| :: RotatedBy(a, b, j)
  }

  ghost predicate RotatedBy(a: seq<int>, b: seq<int>, j: int)
    requires |a| == |b| && 0 <= j < |b|
  {
    forall i | 0 <= i < |a| :: a[i] == b[(j + i) % |a|]
  }

  /** No index occurs twice, as in the vertex list of a face. */
  ghost predicate Distinct(s: seq<int>)
  {
    forall i, k | 0 <= i < k < |s| :: s[i] != s[k]
  }

  /** Position of the first occurrence of x in s, or |s| when x does not occur. */
  function FirstIndexOf(s: seq<int>, x: int): (j: nat)
    ensures j <= |s|
    ensures j < |s| ==> s[j] == x
    ensures forall k | 0 <= k < j :: s[k] != x
  {
    if |s| == 0 then 0 else if s[0] == x then 0 else 1 + FirstIndexOf(s[1..], x)
  }

  /** What faceIndicesEqual decides: equal lengths, a non-empty a whose first
      index occurs in b, and a match of the rest when b is read from that first
      occurrence on, wrapping around. */
  ghost predicate IndicesMatch(a: seq<int>, b: seq<int>)
  {
    |a| == |b| && |a| > 0 && FirstIndexOf(b, a[0]) < |b| && RotatedBy(a, b, FirstIndexOf(b, a[0]))
  }

  method FaceIndicesEqual(indices1: array<int>, indices2: array<int>) returns (eq: bool)
    ensures eq == IndicesMatch(indices1[..], indices2[..])
    ensures indices1.Length != indices2.Length ==> !eq
    ensures indices1.Length == 0 ==> !eq
    ensures eq ==> IsRotation(indices1[..], indices2[..])
  {
    if indices1.Length != indices2.Length {
      return false;
    }
    var len := indices1.Length;
    var j := 0;
    while j < len
      invariant 0 <= j <= len
      invariant forall k | 0 <= k < j :: indices1[0] != indices2[k]
    {
      if indices1[0] == indices2[j] {
        break;
      }
      j := j + 1;
    }
    ghost var a, b := indices1[..], indices2[..];
    if j == len {
      assert len > 0 ==> FirstIndexOf(b, a[0]) == len;
      return false;
    }
    assert j == FirstIndexOf(b, a[0]);
    ModWrap(j + 0, len);
    for i := 1 to len
      invariant forall k | 0 <= k < i :: a[k] == b[(j + k) % len]
    {
      if indices1[i] != indices2[(j + i) % len] {
        assert a[i] != b[(j + i) % len];
        return false;
      }
    }
    assert RotatedBy(a, b, j);
    MatchIsRotation(a, b);
    return true;
  }

  /** For 0 <= x < 2n, x mod n is x itself or x - n. */
  lemma ModWrap(x: int, n: int)
    requires n > 0 && 0 <= x < 2 * n
    ensures x % n == if x < n then x else x - n
  {
    if x < n {
      assert x == 0 * n + x;
    } else {
      assert x == 1 * n + (x - n);
    }
  }

  /** A match is a cyclic rotation. */
  lemma MatchIsRotation(a: seq<int>, b: seq<int>)
    requires IndicesMatch(a, b)
    ensures IsRotation(a, b)
  {
    var j := FirstIndexOf(b, a[0]);
    assert RotatedBy(a, b, j);
  }

  /** Every non-empty index list matches itself. */
  lemma MatchReflexive(a: seq<int>)
    requires |a| > 0
    ensures IndicesMatch(a, a)
  {
    assert FirstIndexOf(a, a[0]) == 0;
    ghost var b := a;
    forall i | 0 <= i < |a|
      ensures a[i] == b[(0 + i) % |b|]
    {
      ModWrap(0 + i, |b|);
    }
  }

  /** When b has no repeated index, matching is exactly being a rotation:
      the only offset that can work is the first occurrence of a[0] in b. */
  lemma MatchIffRotationWhenDistinct(a: seq<int>, b: seq<int>)
    requires Distinct(b)
    ensures IndicesMatch(a, b) <==> IsRotation(a, b)
  {
    if IsRotation(a, b) {
      var j :| 0 <= j < |b| && RotatedBy(a, b, j);
      ModWrap(j + 0, |a|);
      assert a[0] == b[j];
      assert FirstIndexOf(b, a[0]) == j;
    }
    if IndicesMatch(a, b) {
      MatchIsRotation(a, b);
    }
  }

  /** Without distinct indices a rotation can be missed: [1, 2, 1, 3] read from
      position 2 of [1, 3, 1, 2] matches, but only position 0 is tried. */
  lemma RepeatedIndexMissesRotation()
    ensures IsRotation([1, 2, 1, 3], [1, 3, 1, 2])
    ensures !IndicesMatch([1, 2, 1, 3], [1, 3, 1, 2])
  {
    var a, b := [1, 2, 1, 3], [1, 3, 1, 2];
    assert RotatedBy(a, b, 2) by {
      assert (2 + 0) % 4 == 2 && (2 + 1) % 4 == 3 && (2 + 2) % 4 == 0 && (2 + 3) % 4 == 1;
    }
    assert FirstIndexOf(b, 1) == 0;
    assert a[1] != b[(0 + 1) % 4];
  }
}
