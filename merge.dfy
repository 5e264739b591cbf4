/**
 * merge_near_detections: take the front box, scan the others once, joining into it every box
 * whose centre is near its current centre, emit it, and repeat on the boxes left over.
 */
module ProximityMerge {
  import opened Boxes
  import opened Sequences

  /**
   * The union a pass applies: `union_boxes` as written, or the corner-form union it evidently
   * intends. The merger itself uses AsWritten.
   */
  datatype Joiner = AsWritten | Corners

  function Join(j: Joiner, a: Box, b: Box): Box {
    match j
    case AsWritten => UnionBoxes(a, b)
    case Corners => UnionCorners(a, b)
  }

  /** `r` encloses `b` in the reading the union of `j` works in. */
  ghost predicate Encloses(j: Joiner, r: Box, b: Box) {
    match j
    case AsWritten => EnclosesAsRead(r, b)
    case Corners => IsContained(b, r)
  }

  /** What one scan produces: the grown box, the boxes joined into it, and the boxes left over. */
  datatype Pass = Pass(merged: Box, absorbed: seq<Box>, remaining: seq<Box>)

  /**
   * One scan of `rest`, in order, against a box that grows as it goes: a box near the current
   * box is joined into it, any other box is left for the next scan.
   */
  function Scan(j: Joiner, current: Box, rest: seq<Box>, t: real): (p: Pass)
    ensures |p.absorbed| + |p.remaining| == |rest|
    decreases |rest|
  {
    if rest == [] then Pass(current, [], [])
    else if IsNear(current, rest[0], t) then
      var p := Scan(j, Join(j, current, rest[0]), rest[1..], t);
      Pass(p.merged, [rest[0]] + p.absorbed, p.remaining)
    else
      var p := Scan(j, current, rest[1..], t);
      Pass(p.merged, p.absorbed, [rest[0]] + p.remaining)
  }

  /** The boxes emitted by the merger, in order; each scan consumes its seed, so it terminates. */
  function Merge(j: Joiner, dets: seq<Box>, t: real): (r: seq<Box>)
    ensures dets == [] ==> r == []
    ensures dets != [] ==> 1 <= |r| <= |dets|
    decreases |dets|
  {
    if dets == [] then []
    else
      var p := Scan(j, dets[0], dets[1..], t);
      [p.merged] + Merge(j, p.remaining, t)
  }

  /** The group of every emitted box: its seed followed by the boxes joined into it, in order. */
  function Groups(j: Joiner, dets: seq<Box>, t: real): seq<seq<Box>>
    decreases |dets|
  {
    if dets == [] then []
    else
      var p := Scan(j, dets[0], dets[1..], t);
      [[dets[0]] + p.absorbed] + Groups(j, p.remaining, t)
  }

  /** Join the boxes of `bs` into `seed`, left to right. */
  function JoinAll(j: Joiner, seed: Box, bs: seq<Box>): Box
    decreases |bs|
  {
    if bs == [] then seed else JoinAll(j, Join(j, seed, bs[0]), bs[1..])
  }

  /**
   * Lines 45-63. Pop the front box, scan the rest once, joining every near box into it with
   * union_boxes and collecting the others; emit the grown box and go on with the others.
   */
  method MergeNearDetections(detections: seq<Box>, t: real) returns (merged: seq<Box>)
    ensures merged == Merge(AsWritten, detections, t)
    ensures detections == [] ==> merged == []
    ensures detections != [] ==> 1 <= |merged| <= |detections|
  {
    var dets := detections;
    merged := [];
    while |dets| > 0
      invariant merged + Merge(AsWritten, dets, t) == Merge(AsWritten, detections, t)
      decreases |dets|
    {
      var current := dets[0];
      var grown, remaining := ScanNear(current, dets[1..], t);
      merged := merged + [grown];
      dets := remaining;
    }
  }

  /**
   * Lines 51-60, the inner loop: every box of `rest` near the growing box is joined into it
   * with union_boxes; the others are collected, in order, as the remaining detections.
   */
  method ScanNear(current: Box, rest: seq<Box>, t: real) returns (grown: Box, remaining: seq<Box>)
    ensures grown == Scan(AsWritten, current, rest, t).merged
    ensures remaining == Scan(AsWritten, current, rest, t).remaining
  {
    grown := current;
    remaining := [];
    for k := 0 to |rest|
      invariant Scan(AsWritten, current, rest, t).merged == Scan(AsWritten, grown, rest[k..], t).merged
      invariant Scan(AsWritten, current, rest, t).remaining
        == remaining + Scan(AsWritten, grown, rest[k..], t).remaining
    {
      var det := rest[k];
      assert rest[k..][1..] == rest[k + 1..];
      if IsNear(grown, det, t) {
        grown := UnionBoxes(grown, det);
      } else {
        remaining := remaining + [det];
      }
    }
  }

  // ---------------------------------------------------------------- conservation of boxes

  /** A scan loses and invents nothing: the boxes it joins and the boxes it leaves are its input. */
  lemma {:induction false} ScanConserves(j: Joiner, current: Box, rest: seq<Box>, t: real)
    ensures var p := Scan(j, current, rest, t);
      multiset(p.absorbed) + multiset(p.remaining) == multiset(rest)
    decreases |rest|
  {
    if rest != [] {
      assert rest == [rest[0]] + rest[1..];
      if IsNear(current, rest[0], t) {
        ScanConserves(j, Join(j, current, rest[0]), rest[1..], t);
      } else {
        ScanConserves(j, current, rest[1..], t);
      }
    }
  }

  /** The box a scan emits is its seed joined, in order, with exactly the boxes it absorbed. */
  lemma {:induction false} ScanJoinsAbsorbed(j: Joiner, current: Box, rest: seq<Box>, t: real)
    ensures var p := Scan(j, current, rest, t);
      p.merged == JoinAll(j, current, p.absorbed)
    decreases |rest|
  {
    if rest != [] {
      if IsNear(current, rest[0], t) {
        ScanJoinsAbsorbed(j, Join(j, current, rest[0]), rest[1..], t);
      } else {
        ScanJoinsAbsorbed(j, current, rest[1..], t);
      }
    }
  }

  /**
   * There is one group per emitted box; each group is non-empty and the emitted box is the
   * group joined together from its seed.
   */
  lemma {:induction false} MergeJoinsGroups(j: Joiner, dets: seq<Box>, t: real)
    ensures var gs, r := Groups(j, dets, t), Merge(j, dets, t);
      && |gs| == |r|
      && forall k :: 0 <= k < |gs| ==> gs[k] != [] && r[k] == JoinAll(j, gs[k][0], gs[k][1..])
    decreases |dets|
  {
    if dets != [] {
      var p := Scan(j, dets[0], dets[1..], t);
      ScanJoinsAbsorbed(j, dets[0], dets[1..], t);
      MergeJoinsGroups(j, p.remaining, t);
      var group := [dets[0]] + p.absorbed;
      assert group[1..] == p.absorbed;
    }
  }

  /** Every input box lands in exactly one group: the groups together are the input, with multiplicity. */
  lemma {:induction false} GroupsPartitionInput(j: Joiner, dets: seq<Box>, t: real)
    ensures multiset(Flatten(Groups(j, dets, t))) == multiset(dets)
    decreases |dets|
  {
    if dets != [] {
      var p := Scan(j, dets[0], dets[1..], t);
      ScanConserves(j, dets[0], dets[1..], t);
      GroupsPartitionInput(j, p.remaining, t);
      var group := [dets[0]] + p.absorbed;
      assert Flatten(Groups(j, dets, t)) == group + Flatten(Groups(j, p.remaining, t));
      assert dets == [dets[0]] + dets[1..];
    }
  }

  // ---------------------------------------------------------------- what the emitted boxes cover

  lemma JoinEncloses(j: Joiner, a: Box, b: Box)
    ensures Encloses(j, Join(j, a, b), a) && Encloses(j, Join(j, a, b), b)
  {
  }

  lemma EnclosesTransitive(j: Joiner, r: Box, m: Box, b: Box)
    requires Encloses(j, r, m) && Encloses(j, m, b)
    ensures Encloses(j, r, b)
  {
  }

  /** A box joined with others encloses them all, and itself, in the reading of its union. */
  lemma {:induction false} JoinAllEncloses(j: Joiner, seed: Box, bs: seq<Box>)
    ensures var r := JoinAll(j, seed, bs);
      Encloses(j, r, seed) && forall b :: b in bs ==> Encloses(j, r, b)
    decreases |bs|
  {
    if bs != [] {
      var grown := Join(j, seed, bs[0]);
      JoinAllEncloses(j, grown, bs[1..]);
      var r := JoinAll(j, grown, bs[1..]);
      JoinEncloses(j, seed, bs[0]);
      EnclosesTransitive(j, r, grown, seed);
      EnclosesTransitive(j, r, grown, bs[0]);
      assert forall b :: b in bs ==> b == bs[0] || b in bs[1..];
    }
  }

  /** Each emitted box encloses every box of its group. */
  lemma MergeEnclosesGroups(j: Joiner, dets: seq<Box>, t: real, k: nat, b: Box)
    requires k < |Groups(j, dets, t)| && b in Groups(j, dets, t)[k]
    ensures k < |Merge(j, dets, t)| && Encloses(j, Merge(j, dets, t)[k], b)
  {
    MergeJoinsGroups(j, dets, t);
    var g := Groups(j, dets, t)[k];
    JoinAllEncloses(j, g[0], g[1..]);
    assert b == g[0] || b in g[1..];
  }

  /** With the corner-form union, boxes stay well formed through the merge. */
  lemma {:induction false} CornersMergeWellFormed(dets: seq<Box>, t: real)
    requires forall b :: b in dets ==> WellFormed(b)
    ensures forall b :: b in Merge(Corners, dets, t) ==> WellFormed(b)
    decreases |dets|
  {
    if dets != [] {
      var p := Scan(Corners, dets[0], dets[1..], t);
      ScanConserves(Corners, dets[0], dets[1..], t);
      ScanJoinsAbsorbed(Corners, dets[0], dets[1..], t);
      forall b | b in p.absorbed ensures WellFormed(b) {
        assert b in multiset(p.absorbed);
        assert b in multiset(dets[1..]);
      }
      JoinAllCornersWellFormed(dets[0], p.absorbed);
      forall b | b in p.remaining ensures b in dets {
        assert b in multiset(p.remaining);
        assert b in multiset(dets[1..]);
      }
      CornersMergeWellFormed(p.remaining, t);
    }
  }

  lemma {:induction false} JoinAllCornersWellFormed(seed: Box, bs: seq<Box>)
    requires WellFormed(seed) && forall b :: b in bs ==> WellFormed(b)
    ensures WellFormed(JoinAll(Corners, seed, bs))
    decreases |bs|
  {
    if bs != [] {
      JoinAllCornersWellFormed(UnionCorners(seed, bs[0]), bs[1..]);
    }
  }

  // ---------------------------------------------------------------- nearness decides

  /** A scan in which no box is near the seed joins nothing and leaves every box. */
  lemma {:induction false} ScanNoneNear(j: Joiner, current: Box, rest: seq<Box>, t: real)
    requires forall b :: b in rest ==> !IsNear(current, b, t)
    ensures Scan(j, current, rest, t) == Pass(current, [], rest)
    decreases |rest|
  {
    if rest != [] {
      ScanNoneNear(j, current, rest[1..], t);
    }
  }

  /** Boxes that are pairwise not near are all emitted as they are, in order. */
  lemma {:induction false} FarBoxesUnchanged(j: Joiner, dets: seq<Box>, t: real)
    requires forall a, b :: 0 <= a < b < |dets| ==> !IsNear(dets[a], dets[b], t)
    ensures Merge(j, dets, t) == dets
    decreases |dets|
  {
    if dets != [] {
      forall b | b in dets[1..] ensures !IsNear(dets[0], b, t) {
        var k :| 0 <= k < |dets[1..]| && dets[1..][k] == b;
        assert dets[k + 1] == b;
      }
      ScanNoneNear(j, dets[0], dets[1..], t);
      FarBoxesUnchanged(j, dets[1..], t);
    }
  }

  /** Two boxes whose centres are exactly the threshold apart are both emitted unchanged. */
  lemma AtThresholdNotMerged(j: Joiner, a: Box, b: Box, t: real)
    requires 0.0 <= t && SquaredCentreDistance(a, b) == t * t
    ensures Merge(j, [a, b], t) == [a, b]
  {
    NotNearAtThreshold(a, b, t);
    FarBoxesUnchanged(j, [a, b], t);
  }

  /** Two boxes whose centres are nearer than the threshold come out as their union. */
  lemma NearPairMerged(j: Joiner, a: Box, b: Box, t: real)
    requires IsNear(a, b, t)
    ensures Merge(j, [a, b], t) == [Join(j, a, b)]
  {
    assert [a, b][1..] == [b];
    assert Scan(j, a, [b], t) == Pass(Join(j, a, b), [b], []);
  }

  // ---------------------------------------------------------------- the union as written

  /**
   * Two corner-form boxes 5 apart: union_boxes returns a box reaching to x = 120 although no
   * input reaches beyond 115, and an area field of 13200 for a region of 200; the corner-form
   * union is the box the merge means.
   */
  lemma UnionBoxesOnCornersOversized()
    ensures var a, b := Box(100, 100, 110, 110, 100), Box(105, 100, 115, 110, 100);
      && WellFormed(a) && WellFormed(b) && IsNear(a, b, 55.0)
      && Merge(AsWritten, [a, b], 55.0) == [Box(100, 100, 120, 110, 13200)]
      && !WellFormed(Box(100, 100, 120, 110, 13200))
      && Merge(Corners, [a, b], 55.0) == [Box(100, 100, 115, 110, 150)]
      && WellFormed(Box(100, 100, 115, 110, 150))
  {
    var a, b := Box(100, 100, 110, 110, 100), Box(105, 100, 115, 110, 100);
    NearPairMerged(AsWritten, a, b, 55.0);
    NearPairMerged(Corners, a, b, 55.0);
  }
}
