/**
 * The containment filter of get_contour_detections: a candidate is dropped when some
 * candidate at another position contains it. Order is kept.
 */
module Containment {
  import opened Boxes
  import opened Sequences

  /** Some candidate at a position other than `i` contains candidate `i`. */
  predicate ContainedByOther(c: seq<Box>, i: nat): (r: bool)
    requires i < |c|
    ensures r ==> 2 <= |c|
  {
    exists j :: 0 <= j < |c| && j != i && IsContained(c[i], c[j])
  }

  /** The positions below `n` whose candidate no other candidate contains, in increasing order. */
  function KeptIndices(c: seq<Box>, n: nat): (idx: seq<nat>)
    requires n <= |c|
    ensures StrictlyIncreasing(idx) && InRange(idx, n)
    ensures forall i :: 0 <= i < n ==> (i in idx <==> !ContainedByOther(c, i))
  {
    if n == 0 then []
    else
      var prefix := KeptIndices(c, n - 1);
      if ContainedByOther(c, n - 1) then prefix else prefix + [n - 1]
  }

  /** The candidates the filter keeps, in their original order. */
  function NotContained(c: seq<Box>): (r: seq<Box>)
    ensures multiset(r) <= multiset(c)
  {
    var idx := KeptIndices(c, |c|);
    SelectIsSubMultiset(c, idx, |c|);
    assert c[..|c|] == c;
    Select(c, idx)
  }

  lemma SelectIsSubMultiset(c: seq<Box>, idx: seq<nat>, n: nat)
    requires n <= |c| && InRange(idx, n) && StrictlyIncreasing(idx)
    ensures multiset(Select(c, idx)) <= multiset(c[..n])
  {
    if idx != [] {
      var m := idx[|idx| - 1];
      var front := idx[..|idx| - 1];
      SelectIsSubMultiset(c, front, m);
      assert Select(c, idx) == Select(c, front) + [c[m]];
      assert c[..n] == c[..m] + [c[m]] + c[m + 1..n];
    }
  }

  /**
   * Lines 120-128: for each candidate, scan all candidates for one at another position that
   * contains it, stopping at the first; keep the candidate when there is none.
   */
  method RemoveContained(c: seq<Box>) returns (kept: seq<Box>)
    ensures kept == NotContained(c)
  {
    kept := [];
    for i := 0 to |c|
      invariant kept == Select(c, KeptIndices(c, i))
    {
      var contained := false;
      for j := 0 to |c|
        invariant !contained
        invariant forall j' :: 0 <= j' < j && j' != i ==> !IsContained(c[i], c[j'])
      {
        if i != j && IsContained(c[i], c[j]) {
          contained := true;
          break;
        }
      }
      if !contained {
        SelectAppend(c, KeptIndices(c, i), i);
        kept := kept + [c[i]];
      }
    }
  }

  /** Two candidates with the same corners both lie in each other, so the filter drops both. */
  lemma DuplicatesBothRemoved(c: seq<Box>, i: nat, j: nat)
    requires i < |c| && j < |c| && i != j
    requires c[i].x1 == c[j].x1 && c[i].y1 == c[j].y1 && c[i].x2 == c[j].x2 && c[i].y2 == c[j].y2
    ensures i !in KeptIndices(c, |c|) && j !in KeptIndices(c, |c|)
  {
    assert IsContained(c[i], c[j]) && IsContained(c[j], c[i]);
  }

  /** A box strictly inside another is dropped and the outer box is kept. */
  lemma NestedPairKeepsOuter(inner: Box, outer: Box)
    requires IsContained(inner, outer)
    requires inner.x1 != outer.x1 || inner.y1 != outer.y1 || inner.x2 != outer.x2 || inner.y2 != outer.y2
    ensures NotContained([inner, outer]) == [outer]
    ensures NotContained([outer, inner]) == [outer]
  {
    assert !IsContained(outer, inner);
    OnlySecondKept([inner, outer]);
    OnlyFirstKept([outer, inner]);
  }

  lemma OnlySecondKept(c: seq<Box>)
    requires |c| == 2 && IsContained(c[0], c[1]) && !IsContained(c[1], c[0])
    ensures NotContained(c) == [c[1]]
  {
    assert ContainedByOther(c, 0) && !ContainedByOther(c, 1);
    assert KeptIndices(c, 1) == [];
    assert KeptIndices(c, 2) == [1];
  }

  lemma OnlyFirstKept(c: seq<Box>)
    requires |c| == 2 && IsContained(c[1], c[0]) && !IsContained(c[0], c[1])
    ensures NotContained(c) == [c[0]]
  {
    assert !ContainedByOther(c, 0) && ContainedByOther(c, 1);
    assert KeptIndices(c, 1) == [0];
    assert KeptIndices(c, 2) == [0];
  }
}
