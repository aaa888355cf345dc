/** The computation inside `compareHashes`: an equality test and, when the two
    strings differ, a count of the indices of the first string at which the
    characters differ. The second string is indexed at every index of the
    first, so a shorter second string makes `charAt` throw.
 */
module Comparator {

  /** What `compareHashes` arrives at, printing aside. */
  datatype Comparison =
    | Identical
    | Different(differences: nat)
      /** `charAt(index)` on the second string threw `StringIndexOutOfBoundsException`
          after "NO" was already printed. */
    | IndexOutOfBounds(index: nat)

  /** The indices of `h1` at which `h2` holds another character: the
      reference definition of what the loop counts. */
  ghost function DiffPositions(h1: string, h2: string): set<nat>
    requires |h1| <= |h2|
  {
    set i: nat | i < |h1| && h1[i] != h2[i]
  }

  /** The loop's count, one index at a time from the left. */
  function DiffCount(h1: string, h2: string): (n: nat)
    requires |h1| <= |h2|
    ensures n <= |h1|
    ensures n == 0 <==> h1 == h2[..|h1|]
  {
    if |h1| == 0 then 0
    else
      var k := |h1| - 1;
      assert h1 == h2[..|h1|] <==> h1[..k] == h2[..k] && h1[k] == h2[k];
      DiffCount(h1[..k], h2) + (if h1[k] != h2[k] then 1 else 0)
  }

  /** The count is exactly the number of differing positions. */
  lemma {:induction false} DiffCountPositions(h1: string, h2: string)
    requires |h1| <= |h2|
    ensures DiffCount(h1, h2) == |DiffPositions(h1, h2)|
    decreases |h1|
  {
    if |h1| > 0 {
      var k := |h1| - 1;
      DiffCountPositions(h1[..k], h2);
      var before := DiffPositions(h1[..k], h2);
      assert k !in before;
      DiffPositionsStep(h1, h2);
    }
  }

  /** Extending the first string by one index adds that index exactly when it differs. */
  lemma DiffPositionsStep(h1: string, h2: string)
    requires 0 < |h1| <= |h2|
    ensures var k := |h1| - 1;
      DiffPositions(h1, h2) == DiffPositions(h1[..k], h2) + (if h1[k] != h2[k] then {k} else {})
  {
    var k := |h1| - 1;
    forall i: nat | i < k
      ensures h1[..k][i] == h1[i]
    {
    }
  }

  /** Strings that differ at exactly the positions in `p` are counted `|p|` apart. */
  lemma DiffCountExactly(h1: string, h2: string, p: set<nat>)
    requires |h1| == |h2|
    requires forall i: nat :: i < |h1| ==> (i in p <==> h1[i] != h2[i])
    requires forall i :: i in p ==> i < |h1|
    ensures DiffCount(h1, h2) == |p|
  {
    DiffCountPositions(h1, h2);
    assert DiffPositions(h1, h2) == p;
  }

  /** For equal lengths the count does not depend on the order of the arguments. */
  lemma DiffCountSymmetric(h1: string, h2: string)
    requires |h1| == |h2|
    ensures DiffCount(h1, h2) == DiffCount(h2, h1)
  {
    DiffCountPositions(h1, h2);
    DiffCountPositions(h2, h1);
    assert DiffPositions(h1, h2) == DiffPositions(h2, h1);
  }

  /** Changing one character of a string puts it exactly one position away. */
  lemma DiffCountOneChange(h: string, j: nat, c: char)
    requires j < |h| && h[j] != c
    ensures DiffCount(h, h[j := c]) == 1
  {
    DiffCountExactly(h, h[j := c], {j});
  }

  /** The `hash1.equals(hash2)` test followed by the counting loop. */
  function Compare(hash1: string, hash2: string): (c: Comparison)
    ensures c == Identical <==> hash1 == hash2
    ensures c.IndexOutOfBounds? <==> hash1 != hash2 && |hash2| < |hash1|
    ensures c.IndexOutOfBounds? ==> c.index == |hash2|
    ensures c.Different? ==> c.differences <= |hash1|
    ensures c.Different? && |hash1| == |hash2| ==> 1 <= c.differences
    ensures c.Different? ==> |hash1| <= |hash2| && c.differences == |DiffPositions(hash1, hash2)|
  {
    if hash1 == hash2 then Identical
    else if |hash2| < |hash1| then IndexOutOfBounds(|hash2|)
    else
      DiffCountPositions(hash1, hash2);
      Different(DiffCount(hash1, hash2))
  }

  /** Exactly a first hash that is a proper prefix of the second is reported
      as not identical with no differing character: the loop never looks
      past the first string. */
  lemma PrefixDiffersByNothing(h1: string, h2: string)
    ensures Compare(h1, h2) == Different(0) <==> |h1| < |h2| && h2[..|h1|] == h1
  {
    if |h1| < |h2| && h2[..|h1|] == h1 {
      assert h1 != h2;
    }
  }

  /** The `for` loop of `compareHashes` on the branch where the strings differ. */
  method CountDifferences(hash1: string, hash2: string) returns (differences: nat)
    requires |hash1| <= |hash2|
    ensures differences == DiffCount(hash1, hash2)
    ensures differences == |DiffPositions(hash1, hash2)|
  {
    differences := 0;
    for i := 0 to |hash1|
      invariant differences == DiffCount(hash1[..i], hash2)
    {
      assert hash1[..i + 1][..i] == hash1[..i];
      if hash1[i] != hash2[i] {
        differences := differences + 1;
      }
    }
    assert hash1[..|hash1|] == hash1;
    DiffCountPositions(hash1, hash2);
  }
}
