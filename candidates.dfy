/**
 * Candidate building in get_contour_detections: every contour's bounding rectangle
 * `(x, y, w, h)` becomes `[x, y, x + w, y + h, w * h]`, kept only when its area exceeds
 * the threshold, in contour order.
 */
module ContourCandidates {
  import opened Boxes
  import opened Sequences

  function RectArea(r: Rect): int { r.w * r.h }

  /** The corner-form detection built from one bounding rectangle. */
  function Candidate(r: Rect): (b: Box)
    ensures b.x1 == r.x && b.y1 == r.y
    ensures b.x2 - b.x1 == r.w && b.y2 - b.y1 == r.h
    ensures b.area == (b.x2 - b.x1) * (b.y2 - b.y1)
  {
    Box(r.x, r.y, r.x + r.w, r.y + r.h, r.w * r.h)
  }

  /** The positions below `n` of the rectangles whose area exceeds `thresh`, in increasing order. */
  function PassingIndices(rects: seq<Rect>, thresh: int, n: nat): (idx: seq<nat>)
    requires n <= |rects|
    ensures StrictlyIncreasing(idx) && InRange(idx, n)
    ensures forall i :: 0 <= i < n ==> (i in idx <==> RectArea(rects[i]) > thresh)
  {
    if n == 0 then []
    else
      var prefix := PassingIndices(rects, thresh, n - 1);
      if RectArea(rects[n - 1]) > thresh then prefix + [n - 1] else prefix
  }

  /**
   * The candidates of a list of rectangles: the candidate of each rectangle whose area exceeds
   * `thresh`, in contour order, and nothing else.
   */
  function Candidates(rects: seq<Rect>, thresh: int): (c: seq<Box>)
    ensures var idx := PassingIndices(rects, thresh, |rects|);
      && |c| == |idx|
      && forall k :: 0 <= k < |c| ==> c[k] == Candidate(rects[idx[k]]) && RectArea(rects[idx[k]]) > thresh
    ensures c == [] <==> forall i :: 0 <= i < |rects| ==> RectArea(rects[i]) <= thresh
  {
    var idx := PassingIndices(rects, thresh, |rects|);
    if idx == [] then []
    else
      assert idx[0] in idx;
      seq(|idx|, k requires 0 <= k < |idx| => Candidate(rects[idx[k]]))
  }

  /** Rectangles of non-negative size give well-formed candidates once the threshold is not negative. */
  lemma CandidatesWellFormed(rects: seq<Rect>, thresh: int)
    requires 0 <= thresh
    requires forall i :: 0 <= i < |rects| ==> 0 <= rects[i].w && 0 <= rects[i].h
    ensures forall b :: b in Candidates(rects, thresh) ==> WellFormed(b)
  {
    var c := Candidates(rects, thresh);
    forall b | b in c ensures WellFormed(b) {
      var k :| 0 <= k < |c| && c[k] == b;
    }
  }

  /**
   * Lines 108-113: the loop over the contours, appending the candidate of every rectangle whose
   * area exceeds `thresh`.
   */
  method BuildCandidates(rects: seq<Rect>, thresh: int) returns (detections: seq<Box>)
    ensures detections == Candidates(rects, thresh)
  {
    detections := [];
    ghost var idx: seq<nat> := [];
    for i := 0 to |rects|
      invariant idx == PassingIndices(rects, thresh, i)
      invariant |detections| == |idx|
      invariant forall k :: 0 <= k < |idx| ==> detections[k] == Candidate(rects[idx[k]])
    {
      var r := rects[i];
      var area := r.w * r.h;
      assert area == RectArea(rects[i]);
      if area > thresh {
        detections := detections + [Candidate(r)];
        idx := idx + [i];
      }
    }
  }
}
