/**
 * get_contour_detections without the contour finder: from the bounding rectangles of the mask
 * contours to the final detections, through the area filter, the containment filter,
 * non-maximal suppression and the proximity merger.
 */
module Detections {
  import opened Boxes
  import opened ContourCandidates
  import opened Containment
  import opened Suppression
  import opened ProximityMerge

  /** The default parameters of get_contour_detections. */
  const DefaultAreaThreshold: int := 400
  const DefaultSuppressionThreshold: real := 0.3
  const DefaultDistanceThreshold: real := 55.0

  /**
   * `final` is a possible result for `rects`: the candidates that pass the area filter and no
   * other candidate contains, sorted by non-increasing area in some order among equal areas,
   * suppressed, then merged with union_boxes.
   */
  ghost predicate IsDetectionOutcome(rects: seq<Rect>, thresh: int, suppression: real, distance: real, final: seq<Box>): (r: bool)
    ensures r ==> |final| <= |NotContained(Candidates(rects, thresh))|
    ensures r ==> (final == [] <==> NotContained(Candidates(rects, thresh)) == [])
  {
    exists order ::
      && IsAreaSortedPermutation(order, NotContained(Candidates(rects, thresh)))
      && final == Merge(AsWritten, Suppress(order, suppression), distance)
  }

  /**
   * Lines 105-135, with `rects` the bounding rectangles of the external contours of the mask,
   * in the order the contour finder lists them.
   */
  method GetContourDetections(rects: seq<Rect>, thresh: int, suppression: real, distance: real)
    returns (final: seq<Box>)
    ensures IsDetectionOutcome(rects, thresh, suppression, distance, final)
    ensures (forall i :: 0 <= i < |rects| ==> RectArea(rects[i]) <= thresh) ==> final == []
    ensures final == [] <==> NotContained(Candidates(rects, thresh)) == []
    ensures |final| <= |Candidates(rects, thresh)|
  {
    var detections := BuildCandidates(rects, thresh);
    if |detections| == 0 {
      assert NotContained(detections) == [];
      assert IsAreaSortedPermutation([], NotContained(detections));
      return [];
    }
    var nonContained := RemoveContained(detections);
    var nms := PerformNms(nonContained, suppression);
    final := MergeNearDetections(nms, distance);
    assert |multiset(nonContained)| <= |multiset(detections)| by {
      MultisetCardinality(multiset(nonContained), multiset(detections));
    }
  }

  lemma MultisetCardinality(a: multiset<Box>, b: multiset<Box>)
    requires a <= b
    ensures |a| <= |b|
  {
    assert b == a + (b - a);
  }

  /** A single rectangle above the threshold comes out as its own candidate. */
  lemma SingleRectangle(r: Rect, thresh: int, suppression: real, distance: real, final: seq<Box>)
    requires RectArea(r) > thresh
    requires IsDetectionOutcome([r], thresh, suppression, distance, final)
    ensures final == [Candidate(r)]
  {
    var b := Candidate(r);
    SingleCandidate(r, thresh);
    var order :| IsAreaSortedPermutation(order, NotContained([b]))
      && final == Merge(AsWritten, Suppress(order, suppression), distance);
    assert multiset(order) == multiset{b};
    assert order == [b] by {
      assert |order| == 1 && order[0] in multiset(order);
    }
    assert Suppress(order, suppression) == [b];
  }

  lemma SingleCandidate(r: Rect, thresh: int)
    requires RectArea(r) > thresh
    ensures Candidates([r], thresh) == [Candidate(r)]
    ensures NotContained([Candidate(r)]) == [Candidate(r)]
  {
    assert PassingIndices([r], thresh, 1) == [0];
    assert KeptIndices([Candidate(r)], 1) == [0];
  }

  /**
   * Two disjoint 20 by 20 squares, an area threshold of 100 and the default overlap and
   * distance thresholds: both squares come out unchanged, as corner-form boxes of area 400.
   * Equal areas leave their order to the sort, so either order is a possible result.
   */
  lemma TwoDistantSquares(final: seq<Box>)
    requires IsDetectionOutcome([Rect(0, 0, 20, 20), Rect(100, 100, 20, 20)],
      100, DefaultSuppressionThreshold, DefaultDistanceThreshold, final)
    ensures var a, b := Box(0, 0, 20, 20, 400), Box(100, 100, 120, 120, 400);
      final == [a, b] || final == [b, a]
  {
    var a, b := Box(0, 0, 20, 20, 400), Box(100, 100, 120, 120, 400);
    TwoDistantSquaresFiltered();
    var order :| IsAreaSortedPermutation(order, [a, b])
      && final == Merge(AsWritten, Suppress(order, DefaultSuppressionThreshold), DefaultDistanceThreshold);
    TwoElementPermutation(order, a, b);
    TwoDistantSquaresSeparate();
    if order == [a, b] {
      SeparatePairUnchanged(a, b, DefaultSuppressionThreshold, DefaultDistanceThreshold);
    } else {
      SeparatePairUnchanged(b, a, DefaultSuppressionThreshold, DefaultDistanceThreshold);
    }
  }

  lemma TwoDistantSquaresFiltered()
    ensures NotContained(Candidates([Rect(0, 0, 20, 20), Rect(100, 100, 20, 20)], 100))
      == [Box(0, 0, 20, 20, 400), Box(100, 100, 120, 120, 400)]
  {
    var r0, r1 := Rect(0, 0, 20, 20), Rect(100, 100, 20, 20);
    var a, b := Box(0, 0, 20, 20, 400), Box(100, 100, 120, 120, 400);
    assert RectArea(r0) == 400 && RectArea(r1) == 400;
    BothPass(r0, r1, 100);
    assert Candidate(r0) == a && Candidate(r1) == b;
    assert !IsContained(a, b) && !IsContained(b, a);
    NeitherContainedBothKept(a, b);
  }

  /** Two rectangles that both pass the area filter give their two candidates, in order. */
  lemma BothPass(r0: Rect, r1: Rect, thresh: int)
    requires RectArea(r0) > thresh && RectArea(r1) > thresh
    ensures Candidates([r0, r1], thresh) == [Candidate(r0), Candidate(r1)]
  {
    var rects := [r0, r1];
    assert PassingIndices(rects, thresh, 1) == [0];
    var idx := PassingIndices(rects, thresh, 2);
    assert idx == [0, 1];
    var c := Candidates(rects, thresh);
    assert |c| == 2 && c[0] == Candidate(rects[idx[0]]) && c[1] == Candidate(rects[idx[1]]);
  }

  lemma TwoDistantSquaresSeparate()
    ensures var a, b := Box(0, 0, 20, 20, 400), Box(100, 100, 120, 120, 400);
      && LowOverlap(a, b, DefaultSuppressionThreshold) && LowOverlap(b, a, DefaultSuppressionThreshold)
      && !IsNear(a, b, DefaultDistanceThreshold) && !IsNear(b, a, DefaultDistanceThreshold)
  {
    var a, b := Box(0, 0, 20, 20, 400), Box(100, 100, 120, 120, 400);
    assert Intersection(a, b) == 0 && Intersection(b, a) == 0;
    assert SquaredCentreDistance(a, b) == 20000.0 && SquaredCentreDistance(b, a) == 20000.0;
  }

  /** When neither of two boxes contains the other, the containment filter keeps both, in order. */
  lemma NeitherContainedBothKept(a: Box, b: Box)
    requires !IsContained(a, b) && !IsContained(b, a)
    ensures NotContained([a, b]) == [a, b]
  {
    var c := [a, b];
    assert !ContainedByOther(c, 0) && !ContainedByOther(c, 1);
    assert KeptIndices(c, 1) == [0];
    assert KeptIndices(c, 2) == [0, 1];
  }

  /** Two boxes that overlap little and are not near pass suppression and merging untouched. */
  lemma SeparatePairUnchanged(s: Box, o: Box, suppression: real, distance: real)
    requires LowOverlap(s, o, suppression) && !IsNear(s, o, distance)
    ensures Merge(AsWritten, Suppress([s, o], suppression), distance) == [s, o]
  {
    assert [s, o][1..] == [o];
    assert Survivors(s, [o], suppression) == [o];
    assert Suppress([s, o], suppression) == [s, o];
    FarBoxesUnchanged(AsWritten, [s, o], distance);
  }

  lemma TwoElementPermutation(s: seq<Box>, a: Box, b: Box)
    requires a != b && multiset(s) == multiset([a, b])
    ensures s == [a, b] || s == [b, a]
  {
    assert |s| == 2;
    assert s[0] in multiset(s) && s[1] in multiset(s);
    assert multiset(s) == multiset{s[0], s[1]} by {
      assert s == [s[0], s[1]];
    }
  }
}
