/** Unit-cost edit distance (`LevenshteinDistance` in OVRLipSyncNode.cs). */
module Levenshtein {

  /** The smaller of two counts. */
  function Min(a: nat, b: nat): nat
  {
    if a <= b then a else b
  }

  /** Cell (i, j) of the cost table: the edit distance between the first `i`
      characters of `a` and the first `j` characters of `b`. An empty prefix
      costs the length of the other one; otherwise the cheapest of a deletion,
      an insertion and a substitution of the last characters, the substitution
      being free when those characters are equal. */
  function Dist(a: string, b: string, i: nat, j: nat): nat
    requires i <= |a| && j <= |b|
    decreases i + j
  {
    if i == 0 then j
    else if j == 0 then i
    else
      var cost := if b[j - 1] == a[i - 1] then 0 else 1;
      Min(Min(Dist(a, b, i - 1, j) + 1, Dist(a, b, i, j - 1) + 1), Dist(a, b, i - 1, j - 1) + cost)
  }

  /** The edit distance between two whole strings. */
  function EditDistance(a: string, b: string): nat
  {
    Dist(a, b, |a|, |b|)
  }

  /** The dynamic-programming computation over a (|source1|+1) x (|source2|+1)
      table, with the early returns for an empty argument. */
  method LevenshteinDistance(source1: string, source2: string) returns (d: int)
    ensures d == EditDistance(source1, source2)
    ensures |source1| == 0 ==> d == |source2|
    ensures |source2| == 0 ==> d == |source1|
  {
    var n1 := |source1|;
    var n2 := |source2|;
    var matrix := new int[n1 + 1, n2 + 1];

    if n1 == 0 {
      return n2;
    }
    if n2 == 0 {
      return n1;
    }

    var i := 0;
    while i <= n1
      invariant 0 <= i <= n1 + 1
      invariant forall r :: 0 <= r < i ==> matrix[r, 0] == r
    {
      matrix[i, 0] := i;
      i := i + 1;
    }
    var j := 0;
    while j <= n2
      invariant 0 <= j <= n2 + 1
      invariant forall r :: 0 <= r <= n1 ==> matrix[r, 0] == r
      invariant forall c :: 0 <= c < j ==> matrix[0, c] == c
    {
      matrix[0, j] := j;
      j := j + 1;
    }

    i := 1;
    while i <= n1
      invariant 1 <= i <= n1 + 1
      invariant forall r :: i <= r <= n1 ==> matrix[r, 0] == r
      invariant forall r, c {:trigger matrix[r, c]} :: 0 <= r < i && 0 <= c <= n2 ==>
                  matrix[r, c] == Dist(source1, source2, r, c)
    {
      FillRow(matrix, source1, source2, i);
      i := i + 1;
    }
    return matrix[n1, n2];
  }

  /** One pass of the inner loop: fills row `i` from row `i - 1` and the
      already-initialised first column, leaving every other row alone. */
  method FillRow(matrix: array2<int>, source1: string, source2: string, i: nat)
    requires matrix.Length0 == |source1| + 1 && matrix.Length1 == |source2| + 1
    requires 1 <= i <= |source1|
    requires matrix[i, 0] == i
    requires var p := i - 1; forall c {:trigger matrix[p, c]} :: 0 <= c <= |source2| ==> matrix[p, c] == Dist(source1, source2, p, c)
    modifies matrix
    ensures forall c {:trigger matrix[i, c]} :: 0 <= c <= |source2| ==> matrix[i, c] == Dist(source1, source2, i, c)
    ensures forall r, c :: 0 <= r < matrix.Length0 && 0 <= c < matrix.Length1 && r != i ==>
              matrix[r, c] == old(matrix[r, c])
  {
    var j := 1;
    while j <= |source2|
      invariant 1 <= j <= |source2| + 1
      invariant forall c {:trigger matrix[i, c]} :: 0 <= c < j ==> matrix[i, c] == Dist(source1, source2, i, c)
      invariant forall r, c :: 0 <= r < matrix.Length0 && 0 <= c < matrix.Length1 && r != i ==>
                  matrix[r, c] == old(matrix[r, c])
    {
      var cost := if source2[j - 1] == source1[i - 1] then 0 else 1;
      matrix[i, j] := Min(Min(matrix[i - 1, j] + 1, matrix[i, j - 1] + 1),
                          matrix[i - 1, j - 1] + cost);
      j := j + 1;
    }
  }

  /** A prefix is at distance 0 from itself. */
  lemma {:induction false} DistToSelf(a: string, i: nat)
    requires i <= |a|
    ensures Dist(a, a, i, i) == 0
    decreases i
  {
    if i > 0 {
      DistToSelf(a, i - 1);
    }
  }

  /** A string is at distance 0 from itself. */
  lemma DistanceToSelf(a: string)
    ensures EditDistance(a, a) == 0
  {
    DistToSelf(a, |a|);
  }

  /** Cell distance 0 is only reached by equal prefixes. */
  lemma {:induction false} DistZeroOnlyIfEqual(a: string, b: string, i: nat, j: nat)
    requires i <= |a| && j <= |b| && Dist(a, b, i, j) == 0
    ensures i == j && a[..i] == b[..j]
    decreases i + j
  {
    if i > 0 && j > 0 {
      DistZeroOnlyIfEqual(a, b, i - 1, j - 1);
      assert a[..i] == a[..i - 1] + [a[i - 1]];
      assert b[..j] == b[..j - 1] + [b[j - 1]];
    }
  }

  /** Distance 0 means the two strings are equal, and only then. */
  lemma DistanceZeroIffEqual(a: string, b: string)
    ensures EditDistance(a, b) == 0 <==> a == b
  {
    if a == b {
      DistanceToSelf(a);
    } else if EditDistance(a, b) == 0 {
      assert a[..|a|] == a && b[..|b|] == b;
      DistZeroOnlyIfEqual(a, b, |a|, |b|);
    }
  }

  /** Swapping the strings transposes the table. */
  lemma {:induction false} DistSymmetric(a: string, b: string, i: nat, j: nat)
    requires i <= |a| && j <= |b|
    ensures Dist(a, b, i, j) == Dist(b, a, j, i)
    decreases i + j
  {
    if i > 0 && j > 0 {
      forall p: nat, q: nat | p <= i && q <= j && p + q < i + j
        ensures Dist(a, b, p, q) == Dist(b, a, q, p)
      {
        DistSymmetric(a, b, p, q);
      }
    }
  }

  /** The distance does not depend on the order of the arguments. */
  lemma DistanceSymmetric(a: string, b: string)
    ensures EditDistance(a, b) == EditDistance(b, a)
  {
    DistSymmetric(a, b, |a|, |b|);
  }

  /** A cell is at least the difference of the prefix lengths. */
  lemma {:induction false} DistLower(a: string, b: string, i: nat, j: nat)
    requires i <= |a| && j <= |b|
    ensures Dist(a, b, i, j) >= i - j && Dist(a, b, i, j) >= j - i
    decreases i + j
  {
    if i > 0 && j > 0 {
      forall p: nat, q: nat | p <= i && q <= j && p + q < i + j
        ensures Dist(a, b, p, q) >= p - q && Dist(a, b, p, q) >= q - p
      {
        DistLower(a, b, p, q);
      }
    }
  }

  /** A cell is at most the longer prefix length: substituting along the
      diagonal and then inserting or deleting the rest never costs more. */
  lemma {:induction false} DistUpper(a: string, b: string, i: nat, j: nat)
    requires i <= |a| && j <= |b|
    ensures (i >= j && Dist(a, b, i, j) <= i) || (j >= i && Dist(a, b, i, j) <= j)
    decreases i + j
  {
    if i > 0 && j > 0 {
      DistUpper(a, b, i - 1, j - 1);
    }
  }

  /** The distance is at least the difference of the lengths and at most the
      longer length. */
  lemma DistanceBounds(a: string, b: string)
    ensures EditDistance(a, b) >= |a| - |b| && EditDistance(a, b) >= |b| - |a|
    ensures EditDistance(a, b) <= if |a| <= |b| then |b| else |a|
  {
    DistLower(a, b, |a|, |b|);
    DistUpper(a, b, |a|, |b|);
  }
}
