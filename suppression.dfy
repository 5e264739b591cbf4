/**
 * perform_nms: sort the detections by area, largest first; repeatedly keep the front box and
 * drop every remaining box whose overlap ratio with it reaches the threshold.
 */
module Suppression {
  import opened Boxes
  import opened Sequences

  predicate NonIncreasingArea(s: seq<Box>) {
    forall i, j :: 0 <= i < j < |s| ==> s[i].area >= s[j].area
  }

  /**
   * `s` is an order `np.argsort` may produce for `of`: a permutation, largest area first.
   * The sort is not stable, so the order among equal areas is left open.
   */
  predicate IsAreaSortedPermutation(s: seq<Box>, of: seq<Box>) {
    multiset(s) == multiset(of) && NonIncreasingArea(s)
  }

  // ---------------------------------------------------------------- the sort by area

  function InsertByArea(b: Box, s: seq<Box>): (r: seq<Box>)
    ensures multiset(r) == multiset(s) + multiset{b}
  {
    if s == [] || s[0].area <= b.area then
      [b] + s
    else
      assert s == [s[0]] + s[1..];
      [s[0]] + InsertByArea(b, s[1..])
  }

  lemma {:induction false} InsertByAreaSorted(b: Box, s: seq<Box>)
    requires NonIncreasingArea(s)
    ensures NonIncreasingArea(InsertByArea(b, s))
  {
    if !(s == [] || s[0].area <= b.area) {
      var tail := InsertByArea(b, s[1..]);
      InsertByAreaSorted(b, s[1..]);
      var r := [s[0]] + tail;
      forall j | 0 < j < |r| ensures r[j].area <= s[0].area {
        assert r[j] == tail[j - 1];
        assert r[j] in multiset(tail);
        if r[j] != b {
          var k :| 0 <= k < |s[1..]| && s[1..][k] == r[j];
          assert s[k + 1] == r[j];
        }
      }
    }
  }

  /**
   * One order perform_nms's sort may produce, by insertion; the rounds are proved for every
   * such order, so which one this picks among equal areas does not matter.
   */
  function SortByArea(s: seq<Box>): (r: seq<Box>)
    ensures IsAreaSortedPermutation(r, s)
  {
    if s == [] then []
    else
      assert s == [s[0]] + s[1..];
      var sortedTail := SortByArea(s[1..]);
      InsertByAreaSorted(s[0], sortedTail);
      InsertByArea(s[0], sortedTail)
  }

  // ---------------------------------------------------------------- the suppression rounds

  /** The boxes of `rest` that survive the round whose keeper is `current`, in order. */
  function Survivors(current: Box, rest: seq<Box>, t: real): (r: seq<Box>)
    ensures |r| <= |rest|
    ensures forall b :: b in r ==> b in rest
    decreases |rest|
  {
    if rest == [] then []
    else
      var front := rest[..|rest| - 1];
      var last := rest[|rest| - 1];
      assert rest == front + [last];
      var kept := Survivors(current, front, t);
      if LowOverlap(current, last, t) then kept + [last] else kept
  }

  /** A box survives the round exactly when it is in the rest and overlaps the keeper little. */
  lemma {:induction false} SurvivorsMember(current: Box, rest: seq<Box>, t: real, b: Box)
    ensures b in Survivors(current, rest, t) <==> b in rest && LowOverlap(current, b, t)
    decreases |rest|
  {
    if rest != [] {
      var front, last := rest[..|rest| - 1], rest[|rest| - 1];
      assert rest == front + [last];
      SurvivorsMember(current, front, t, b);
    }
  }

  /** The keepers, in order, of the suppression rounds over an already sorted list. */
  function Suppress(s: seq<Box>, t: real): (r: seq<Box>)
    ensures |r| <= |s|
    ensures forall b :: b in r ==> b in s
    ensures r == [] <==> s == []
    decreases |s|
  {
    if s == [] then []
    else
      assert s == [s[0]] + s[1..];
      [s[0]] + Suppress(Survivors(s[0], s[1..], t), t)
  }

  /**
   * Lines 66-102. The detections are sorted into some order `np.argsort` may produce, then the
   * rounds run: keep the front box, then keep for the next round only the boxes whose overlap
   * ratio with it is below the threshold.
   */
  method PerformNms(detections: seq<Box>, t: real) returns (keepers: seq<Box>)
    ensures exists order :: IsAreaSortedPermutation(order, detections) && keepers == Suppress(order, t)
    ensures |keepers| <= |detections|
    ensures forall b :: b in keepers ==> b in detections
    ensures keepers == [] <==> detections == []
    ensures NonIncreasingArea(keepers)
    ensures LowOverlapInOrder(keepers, t)
  {
    var order := SortByArea(detections);
    var dets := order;
    keepers := [];
    while |dets| > 0
      invariant keepers + Suppress(dets, t) == Suppress(order, t)
      decreases |dets|
    {
      var current := dets[0];
      keepers := keepers + [current];
      var remaining := dets[1..];
      var remainingIndices: seq<nat> := [];
      for i := 0 to |remaining|
        invariant InRange(remainingIndices, |remaining|)
        invariant Select(remaining, remainingIndices) == Survivors(current, remaining[..i], t)
      {
        if LowOverlap(current, remaining[i], t) {
          SelectAppend(remaining, remainingIndices, i);
          remainingIndices := remainingIndices + [i];
        }
        assert remaining[..i + 1][..i] == remaining[..i];
      }
      assert remaining[..|remaining|] == remaining;
      dets := Select(remaining, remainingIndices);
    }
    assert keepers == Suppress(order, t);
    KeepersOfSortedOrder(detections, order, t);
  }

  /** What the rounds promise for any order the sort may produce. */
  lemma KeepersOfSortedOrder(detections: seq<Box>, order: seq<Box>, t: real)
    requires IsAreaSortedPermutation(order, detections)
    ensures var r := Suppress(order, t);
      && |r| <= |detections|
      && (forall b :: b in r ==> b in detections)
      && (r == [] <==> detections == [])
      && NonIncreasingArea(r)
      && LowOverlapInOrder(r, t)
  {
    var r := Suppress(order, t);
    assert |order| == |multiset(order)| == |multiset(detections)| == |detections|;
    SuppressSorted(order, t);
    SuppressPairwiseLow(order, t);
    forall b | b in r ensures b in detections {
      assert b in multiset(order);
    }
  }

  // ---------------------------------------------------------------- properties of the keepers

  /** Keepers of a sorted list are sorted: the result is non-increasing in area. */
  lemma {:induction false} SuppressSorted(s: seq<Box>, t: real)
    requires NonIncreasingArea(s)
    ensures NonIncreasingArea(Suppress(s, t))
    decreases |s|
  {
    if s != [] {
      var next := Survivors(s[0], s[1..], t);
      SurvivorsSorted(s[0], s[1..], t);
      SuppressSorted(next, t);
      var tail := Suppress(next, t);
      forall x | x in tail ensures x.area <= s[0].area {
        var k :| 1 <= k < |s| && s[k] == x;
      }
      assert forall j :: 0 < j < |Suppress(s, t)| ==> Suppress(s, t)[j] == tail[j - 1];
    }
  }

  lemma {:induction false} SurvivorsSorted(current: Box, rest: seq<Box>, t: real)
    requires NonIncreasingArea(rest)
    ensures NonIncreasingArea(Survivors(current, rest, t))
    decreases |rest|
  {
    if rest != [] {
      var front := rest[..|rest| - 1];
      var last := rest[|rest| - 1];
      SurvivorsSorted(current, front, t);
      var kept := Survivors(current, front, t);
      forall x | x in kept ensures x.area >= last.area {
        var k :| 0 <= k < |front| && front[k] == x;
      }
    }
  }

  /** Every box of `r` overlaps every later box of `r` below the threshold. */
  ghost predicate LowOverlapInOrder(r: seq<Box>, t: real) {
    forall i, j :: 0 <= i < j < |r| ==> LowOverlap(r[i], r[j], t)
  }

  /** Every pair of keepers, earlier and later, overlaps below the threshold. */
  lemma {:induction false} SuppressPairwiseLow(s: seq<Box>, t: real)
    ensures LowOverlapInOrder(Suppress(s, t), t)
    decreases |s|
  {
    if s != [] {
      var next := Survivors(s[0], s[1..], t);
      SuppressPairwiseLow(next, t);
      var r, tail := Suppress(s, t), Suppress(next, t);
      assert r == [s[0]] + tail;
      forall i, j | 0 <= i < j < |r| ensures LowOverlap(r[i], r[j], t) {
        var x := tail[j - 1];
        assert r[j] == x && x in tail;
        if i == 0 {
          assert r[0] == s[0] && x in next;
          SurvivorsMember(s[0], s[1..], t, x);
        } else {
          assert r[i] == tail[i - 1];
          assert LowOverlapInOrder(tail, t);
        }
      }
    }
  }

  /**
   * The front box of the sorted input is always kept, and it is a largest box of the input:
   * non-maximal suppression never loses the largest detection.
   */
  lemma LargestIsKept(detections: seq<Box>, order: seq<Box>, t: real)
    requires detections != []
    requires IsAreaSortedPermutation(order, detections)
    ensures var r := Suppress(order, t);
      r != [] && r[0] in detections && forall b :: b in detections ==> b.area <= r[0].area
  {
    assert order[0] in multiset(detections);
    forall b | b in detections ensures b.area <= order[0].area {
      assert b in multiset(order);
      var k :| 0 <= k < |order| && order[k] == b;
    }
  }

  /** No box is dropped without cause: each input box is a keeper or overlaps a keeper too much. */
  lemma {:induction false} SuppressedHaveCause(s: seq<Box>, t: real, b: Box)
    requires b in s
    ensures var r := Suppress(s, t);
      b in r || exists k :: k in r && !LowOverlap(k, b, t)
    decreases |s|
  {
    var r := Suppress(s, t);
    if b != s[0] {
      assert b in s[1..];
      var next := Survivors(s[0], s[1..], t);
      if LowOverlap(s[0], b, t) {
        SurvivorsMember(s[0], s[1..], t, b);
        SuppressedHaveCause(next, t, b);
        var tail := Suppress(next, t);
        assert forall x :: x in tail ==> x in r;
      } else {
        assert s[0] in r;
      }
    }
  }

  /** A box whose ratio with the keeper is exactly the threshold does not survive the round. */
  lemma AtThresholdDropped(current: Box, rest: seq<Box>, t: real, b: Box)
    requires WellFormed(current) && WellFormed(b)
    requires OverlapRatio(current, b) == t
    ensures b !in Survivors(current, rest, t)
  {
    SuppressedAtThreshold(current, b, t);
    SurvivorsMember(current, rest, t, b);
  }

  // ---------------------------------------------------------------- idempotence

  /**
   * The boxes of `m` overlap pairwise below the threshold, in both directions, counting a box
   * that occurs twice as a pair with itself.
   */
  ghost predicate PairwiseLow(m: multiset<Box>, t: real) {
    forall a, b :: a in m && b in m && (a != b || m[a] >= 2) ==> LowOverlap(a, b, t)
  }

  lemma {:induction false} KeepersPairwiseLow(s: seq<Box>, t: real)
    ensures PairwiseLow(multiset(Suppress(s, t)), t)
    decreases |s|
  {
    if s != [] {
      var s0 := s[0];
      var next := Survivors(s0, s[1..], t);
      KeepersPairwiseLow(next, t);
      var tail := Suppress(next, t);
      var mt := multiset(tail);
      var m := multiset(Suppress(s, t));
      assert Suppress(s, t) == [s0] + tail;
      assert m == multiset{s0} + mt;
      forall a, b | a in m && b in m && (a != b || m[a] >= 2) ensures LowOverlap(a, b, t) {
        if a == s0 && b == s0 {
          assert s0 in mt;
          LaterKeeperLowWithHead(s0, s[1..], t, s0);
        } else if a == s0 {
          assert b in mt;
          LaterKeeperLowWithHead(s0, s[1..], t, b);
        } else if b == s0 {
          assert a in mt;
          LaterKeeperLowWithHead(s0, s[1..], t, a);
          LowOverlapSymmetric(s0, a, t);
        } else {
          assert a in mt && b in mt && (a != b || mt[a] >= 2);
        }
      }
    }
  }

  /** A keeper of a later round overlaps the keeper of the first round little. */
  lemma LaterKeeperLowWithHead(s0: Box, rest: seq<Box>, t: real, x: Box)
    requires x in Suppress(Survivors(s0, rest, t), t)
    ensures LowOverlap(s0, x, t)
  {
    SurvivorsMember(s0, rest, t, x);
  }

  lemma {:induction false} SurvivorsAll(current: Box, rest: seq<Box>, t: real)
    requires forall b :: b in rest ==> LowOverlap(current, b, t)
    ensures Survivors(current, rest, t) == rest
    decreases |rest|
  {
    if rest != [] {
      var front, last := rest[..|rest| - 1], rest[|rest| - 1];
      assert rest == front + [last];
      assert LowOverlap(current, last, t);
      SurvivorsAll(current, front, t);
      assert Survivors(current, rest, t) == Survivors(current, front, t) + [last];
    }
  }

  /** A list whose boxes already overlap pairwise below the threshold loses nothing. */
  lemma {:induction false} SuppressKeepsPairwiseLow(s: seq<Box>, t: real)
    requires PairwiseLow(multiset(s), t)
    ensures Suppress(s, t) == s
    decreases |s|
  {
    if s != [] {
      var a, rest := s[0], s[1..];
      assert s == [a] + rest;
      var m := multiset(s);
      forall b | b in rest ensures LowOverlap(a, b, t) {
        assert b in m && a in m;
        if a == b {
          assert m[a] == multiset(rest)[a] + 1;
        }
      }
      SurvivorsAll(a, rest, t);
      var mr := multiset(rest);
      assert mr <= m;
      forall x, y | x in mr && y in mr && (x != y || mr[x] >= 2) ensures LowOverlap(x, y, t) {
        assert x in m && y in m && (x != y || m[x] >= 2);
      }
      SuppressKeepsPairwiseLow(rest, t);
    }
  }

  /**
   * Idempotence up to tie order: running the rounds again on the keepers, in any order the sort
   * may choose, removes nothing.
   */
  lemma NmsIdempotent(s: seq<Box>, t: real, again: seq<Box>)
    requires multiset(again) == multiset(Suppress(s, t))
    ensures Suppress(again, t) == again
  {
    KeepersPairwiseLow(s, t);
    SuppressKeepsPairwiseLow(again, t);
  }
}
