/**
 * Box geometry of the detection pipeline: the containment test, the union used by the
 * proximity merger, the centre-distance test and the overlap test of non-maximal suppression.
 */
module Boxes {

  /** An axis-aligned bounding rectangle of a mask contour: top-left corner, width, height. */
  datatype Rect = Rect(x: int, y: int, w: int, h: int)

  /**
   * A detection `[x1, y1, x2, y2, area]`. The extractor and non-maximal suppression use the
   * corner reading; the merger's union reads the third and fourth fields as width and height
   * and writes them back that way (see UnionBoxes).
   */
  datatype Box = Box(x1: int, y1: int, x2: int, y2: int, area: int)

  function Min(a: int, b: int): int { if a <= b then a else b }
  function Max(a: int, b: int): int { if a <= b then b else a }

  /** A box in corner form whose area field is its true, positive area. */
  predicate WellFormed(b: Box) {
    && b.x1 <= b.x2 && b.y1 <= b.y2
    && b.area == (b.x2 - b.x1) * (b.y2 - b.y1)
    && 0 < b.area
  }

  // ---------------------------------------------------------------- containment

  /** `is_contained`: the corners of `a` lie within those of `b`. */
  predicate IsContained(a: Box, b: Box): (r: bool)
    ensures r ==> a.x2 - a.x1 <= b.x2 - b.x1 && a.y2 - a.y1 <= b.y2 - b.y1
  {
    a.x1 >= b.x1 && a.y1 >= b.y1 && a.x2 <= b.x2 && a.y2 <= b.y2
  }

  /** The closed pixel region of a box in corner form covers the point (px, py). */
  ghost predicate Covers(b: Box, px: int, py: int) {
    b.x1 <= px <= b.x2 && b.y1 <= py <= b.y2
  }

  /** For a box with ordered corners, the corner test is exactly region inclusion. */
  lemma ContainedIffRegionInside(a: Box, b: Box)
    requires a.x1 <= a.x2 && a.y1 <= a.y2
    ensures IsContained(a, b) <==> forall px, py :: Covers(a, px, py) ==> Covers(b, px, py)
  {
    if forall px, py :: Covers(a, px, py) ==> Covers(b, px, py) {
      assert Covers(a, a.x1, a.y1);
      assert Covers(a, a.x2, a.y2);
    }
  }

  /** `is_contained` never looks at the area, and every box contains itself. */
  lemma ContainedReflexive(a: Box, b: Box)
    requires a.x1 == b.x1 && a.y1 == b.y1 && a.x2 == b.x2 && a.y2 == b.y2
    ensures IsContained(a, b) && IsContained(b, a)
  {
  }

  // ---------------------------------------------------------------- union_boxes

  /** The right and bottom edges of a box read as `[x, y, w, h, ...]`, as union_boxes reads it. */
  function ReadRight(b: Box): int { b.x1 + b.x2 }
  function ReadBottom(b: Box): int { b.y1 + b.y2 }

  /** `r` encloses `b` when both are read as `[x, y, w, h, ...]`. */
  ghost predicate EnclosesAsRead(r: Box, b: Box) {
    r.x1 <= b.x1 && r.y1 <= b.y1 && ReadRight(b) <= ReadRight(r) && ReadBottom(b) <= ReadBottom(r)
  }

  /**
   * `union_boxes`, as written: both arguments are read as `[x, y, w, h, ...]`, and the result is
   * `[x, y, w, h, w * h]` of the smallest box enclosing both in that reading.
   */
  function UnionBoxes(a: Box, b: Box): (r: Box)
    ensures EnclosesAsRead(r, a) && EnclosesAsRead(r, b)
    ensures r.x1 == a.x1 || r.x1 == b.x1
    ensures r.y1 == a.y1 || r.y1 == b.y1
    ensures ReadRight(r) == ReadRight(a) || ReadRight(r) == ReadRight(b)
    ensures ReadBottom(r) == ReadBottom(a) || ReadBottom(r) == ReadBottom(b)
    ensures r.area == r.x2 * r.y2
  {
    var x := Min(a.x1, b.x1);
    var y := Min(a.y1, b.y1);
    var right := Max(a.x1 + a.x2, b.x1 + b.x2);
    var bottom := Max(a.y1 + a.y2, b.y1 + b.y2);
    var w := right - x;
    var h := bottom - y;
    Box(x, y, w, h, w * h)
  }

  /** The union is the least box that encloses both arguments in the reading it uses. */
  lemma UnionBoxesIsLeast(a: Box, b: Box, c: Box)
    requires EnclosesAsRead(c, a) && EnclosesAsRead(c, b)
    ensures EnclosesAsRead(c, UnionBoxes(a, b))
  {
  }

  lemma UnionBoxesCommutes(a: Box, b: Box)
    ensures UnionBoxes(a, b) == UnionBoxes(b, a)
  {
  }

  lemma UnionBoxesAssociates(a: Box, b: Box, c: Box)
    ensures UnionBoxes(UnionBoxes(a, b), c) == UnionBoxes(a, UnionBoxes(b, c))
  {
  }

  /**
   * The union the merger evidently intends: the smallest box in corner form that contains
   * both corner-form arguments, with its area recomputed.
   */
  function UnionCorners(a: Box, b: Box): (r: Box)
    ensures IsContained(a, r) && IsContained(b, r)
    ensures forall c :: IsContained(a, c) && IsContained(b, c) ==> IsContained(r, c)
    ensures WellFormed(a) && WellFormed(b) ==> WellFormed(r)
  {
    var x1 := Min(a.x1, b.x1);
    var y1 := Min(a.y1, b.y1);
    var x2 := Max(a.x2, b.x2);
    var y2 := Max(a.y2, b.y2);
    if WellFormed(a) then
      AreaGrows(a.x2 - a.x1, a.y2 - a.y1, x2 - x1, y2 - y1);
      Box(x1, y1, x2, y2, (x2 - x1) * (y2 - y1))
    else
      Box(x1, y1, x2, y2, (x2 - x1) * (y2 - y1))
  }

  /** A rectangle at least as wide and as tall as one of positive area has at least its area. */
  lemma AreaGrows(w: int, h: int, w': int, h': int)
    requires 0 <= w <= w' && 0 <= h <= h'
    ensures w * h <= w' * h'
    ensures 0 < w * h ==> 0 < w' * h'
  {
    assert (w' - w) * h >= 0;
    assert w' * h <= w' * h';
  }

  // ---------------------------------------------------------------- is_near

  /**
   * The centre is_near takes (lines 39-40): half the sums of fields 0/2 and 1/3, which after a
   * union is `x + w/2`.
   */
  function CentreX(b: Box): real { (b.x1 + b.x2) as real / 2.0 }
  function CentreY(b: Box): real { (b.y1 + b.y2) as real / 2.0 }

  function SquaredCentreDistance(a: Box, b: Box): (d: real)
    ensures 0.0 <= d
    ensures d == 0.0 <==> CentreX(a) == CentreX(b) && CentreY(a) == CentreY(b)
  {
    var dx := CentreX(a) - CentreX(b);
    var dy := CentreY(a) - CentreY(b);
    dx * dx + dy * dy
  }

  /**
   * `is_near`: the Euclidean distance of the two centres is strictly below the threshold.
   * A norm is never negative, so no threshold at or below zero is ever met.
   */
  predicate IsNear(a: Box, b: Box, t: real): (r: bool)
    ensures r ==> 0.0 < t
  {
    0.0 < t && SquaredCentreDistance(a, b) < t * t
  }

  /** IsNear agrees with comparing the true distance `d` of the centres against `t`. */
  lemma NearIffDistanceBelow(a: Box, b: Box, t: real, d: real)
    requires 0.0 <= d && d * d == SquaredCentreDistance(a, b)
    ensures IsNear(a, b, t) <==> d < t
  {
    var dd, dt, tt := d * d, d * t, t * t;
    if d < t {
      assert dd <= dt && dt < tt;
    } else if 0.0 < t {
      assert tt <= dt && dt <= dd;
    }
  }

  lemma IsNearSymmetric(a: Box, b: Box, t: real)
    ensures IsNear(a, b, t) <==> IsNear(b, a, t)
  {
    var dx, dy := CentreX(a) - CentreX(b), CentreY(a) - CentreY(b);
    assert (-dx) * (-dx) == dx * dx && (-dy) * (-dy) == dy * dy;
  }

  /** Centres exactly the threshold apart are not near: the comparison is strict. */
  lemma NotNearAtThreshold(a: Box, b: Box, t: real)
    requires 0.0 <= t && SquaredCentreDistance(a, b) == t * t
    ensures !IsNear(a, b, t)
  {
  }

  // ---------------------------------------------------------------- overlap in perform_nms

  /** Intersection area of two corner-form boxes, zero when they do not overlap. */
  function Intersection(a: Box, b: Box): (r: int)
    ensures 0 <= r
  {
    var w := Max(0, Min(a.x2, b.x2) - Max(a.x1, b.x1));
    var h := Max(0, Min(a.y2, b.y2) - Max(a.y1, b.y1));
    w * h
  }

  function UnionArea(a: Box, b: Box): int {
    a.area + b.area - Intersection(a, b)
  }

  /**
   * The keep test `intersection / union < threshold` of perform_nms, on exact reals. The
   * division is numpy's: a zero union gives NaN or infinity, which is below no threshold;
   * a negative union flips the inequality when it is multiplied out.
   */
  predicate LowOverlap(a: Box, b: Box, t: real): (r: bool)
    ensures UnionArea(a, b) == 0 ==> !r
    ensures 0 < UnionArea(a, b) && t <= 0.0 ==> !r
    ensures 0 < UnionArea(a, b) && Intersection(a, b) == 0 ==> (r <==> 0.0 < t)
  {
    var i := Intersection(a, b) as real;
    var u := UnionArea(a, b) as real;
    if 0.0 < u then i < t * u
    else if u < 0.0 then t * u < i
    else false
  }

  /** Wherever the ratio is defined, LowOverlap is the ratio test itself. */
  lemma LowOverlapIsRatioBelow(a: Box, b: Box, t: real)
    requires UnionArea(a, b) != 0
    ensures LowOverlap(a, b, t) <==> Intersection(a, b) as real / UnionArea(a, b) as real < t
  {
    var i, u := Intersection(a, b) as real, UnionArea(a, b) as real;
    var q := i / u;
    assert q * u == i;
    if 0.0 < u {
      assert q < t <==> q * u < t * u;
    } else {
      assert q < t <==> t * u < q * u;
    }
  }

  /**
   * For well-formed boxes the intersection is at most the smaller area, so the union is at
   * least the larger area, and in particular positive: the ratio is always defined.
   */
  lemma OverlapBounds(a: Box, b: Box)
    requires WellFormed(a) && WellFormed(b)
    ensures Intersection(a, b) <= Min(a.area, b.area)
    ensures Max(a.area, b.area) <= UnionArea(a, b)
    ensures 0 < UnionArea(a, b)
  {
    var w := Max(0, Min(a.x2, b.x2) - Max(a.x1, b.x1));
    var h := Max(0, Min(a.y2, b.y2) - Max(a.y1, b.y1));
    AreaGrows(w, h, a.x2 - a.x1, a.y2 - a.y1);
    AreaGrows(w, h, b.x2 - b.x1, b.y2 - b.y1);
  }

  /**
   * The overlap ratio of lines 91-93 for two well-formed boxes, where the union is positive:
   * an intersection-over-union, between 0 and 1.
   */
  function OverlapRatio(a: Box, b: Box): (r: real)
    requires WellFormed(a) && WellFormed(b)
    ensures 0.0 <= r <= 1.0
  {
    OverlapBounds(a, b);
    var i, u := Intersection(a, b) as real, UnionArea(a, b) as real;
    assert i <= u;
    DivisionBounds(i, u);
    i / u
  }

  lemma DivisionBounds(i: real, u: real)
    requires 0.0 <= i <= u && 0.0 < u
    ensures 0.0 <= i / u <= 1.0
  {
    var q := i / u;
    assert q * u == i;
    assert (1.0 - q) * u == u - i;
  }

  lemma LowOverlapSymmetric(a: Box, b: Box, t: real)
    ensures LowOverlap(a, b, t) <==> LowOverlap(b, a, t)
  {
    assert Intersection(a, b) == Intersection(b, a);
  }

  /** A box whose overlap ratio with the keeper is exactly the threshold is suppressed. */
  lemma SuppressedAtThreshold(a: Box, b: Box, t: real)
    requires WellFormed(a) && WellFormed(b)
    requires OverlapRatio(a, b) == t
    ensures !LowOverlap(a, b, t)
  {
    OverlapBounds(a, b);
    LowOverlapIsRatioBelow(a, b, t);
  }
}
